/**
 Sequences of calls to malloc and free.
 */
module HeapRuns {
  import opened Wrappers
  import opened HeapLayout
  import opened HeapProperties

  datatype Event = Allocate(nbytes: nat) | Release(addr: nat)

  /** free is only given pointers that malloc returned and that are still live. */
  predicate Legal(bs: seq<Block>, e: Event) {
    e.Release? ==> e.addr in LiveAddrs(bs)
  }

  /** The heap after one call; None where the program stops for ever: malloc when nothing fits, free
      when its assertion that the free list is not empty fails. */
  function Step(bs: seq<Block>, e: Event, lo: nat, hi: nat): (r: Option<seq<Block>>)
    requires Layout(bs, lo, hi) && lo > 0 && Legal(bs, e)
    ensures r.Some? ==> Layout(r.value, lo, hi)
  {
    match e
    case Allocate(nbytes) =>
      var n := Units(nbytes);
      var k := FirstFit(bs, n);
      if k == |bs| then None
      else
        TakeKeeps(bs, k, n, lo, hi);
        Some(Take(bs, k, n))
    case Release(a) =>
      if Head(bs) == 0 then None
      else
        var k := IndexOf(bs, a);
        GiveKeeps(bs, k, lo, hi);
        Some(Give(bs, k))
  }

  /** malloc is served from the lowest free block that fits, with a block of the size asked for that
      overlaps no other; it stops for ever exactly when no listed block is large enough. */
  lemma Served(bs: seq<Block>, nbytes: nat, lo: nat, hi: nat)
    requires Layout(bs, lo, hi) && lo > 0
    ensures var n, k, r := Units(nbytes), FirstFit(bs, Units(nbytes)), Step(bs, Allocate(nbytes), lo, hi);
            && (r == None <==> forall j :: 0 <= j < |bs| && bs[j].status == Listed ==> bs[j].size < n)
            && (r.Some? ==>
              && k < |bs| && k < |r.value| && r.value[k] == Block(bs[k].addr, n, Live)
              && (forall j :: 0 <= j < |bs| && bs[j].status == Listed && bs[j].size >= n ==> bs[k].addr <= bs[j].addr)
              && (forall i :: 0 <= i < |r.value| && i != k ==>
                    r.value[i].End() <= bs[k].addr || bs[k].addr + n <= r.value[i].addr))
  {
    hide Layout, Take;
    var n, k, r := Units(nbytes), FirstFit(bs, Units(nbytes)), Step(bs, Allocate(nbytes), lo, hi);
    if k < |bs| {
      Taken(bs, k, n, lo, hi);
      forall j | 0 <= j < |bs| && bs[j].status == Listed && bs[j].size >= n
        ensures bs[k].addr <= bs[j].addr
      {
        Ordered(bs, k, j, lo, hi);
      }
      forall i | 0 <= i < |r.value| && i != k
        ensures r.value[i].End() <= bs[k].addr || bs[k].addr + n <= r.value[i].addr
      {
        Disjoint(r.value, i, k, lo, hi);
      }
    }
  }

  predicate Runs(bs: seq<Block>, es: seq<Event>, lo: nat, hi: nat)
    requires Layout(bs, lo, hi) && lo > 0
    decreases |es|
  {
    es == [] ||
    (Legal(bs, es[0]) && Step(bs, es[0], lo, hi).Some? && Runs(Step(bs, es[0], lo, hi).value, es[1..], lo, hi))
  }

  /** Layout is the heap invariant: address-ordered, tiled exactly, no two listed blocks touching. */
  function After(bs: seq<Block>, es: seq<Event>, lo: nat, hi: nat): (r: seq<Block>)
    requires Layout(bs, lo, hi) && lo > 0 && Runs(bs, es, lo, hi)
    ensures Layout(r, lo, hi)
    decreases |es|
  {
    if es == [] then bs else After(Step(bs, es[0], lo, hi).value, es[1..], lo, hi)
  }

  /** Every malloc of the run is served by the first block of the list. */
  predicate AtHead(bs: seq<Block>, es: seq<Event>, lo: nat, hi: nat)
    requires Layout(bs, lo, hi) && lo > 0 && Runs(bs, es, lo, hi)
    decreases |es|
  {
    es == [] ||
    ((es[0].Allocate? ==> Without(bs[..FirstFit(bs, Units(es[0].nbytes))], Listed)) &&
     AtHead(Step(bs, es[0], lo, hi).value, es[1..], lo, hi))
  }

  lemma StepLoses(bs: seq<Block>, e: Event, lo: nat, hi: nat)
    requires Layout(bs, lo, hi) && lo > 0 && Legal(bs, e) && Step(bs, e, lo, hi).Some?
    ensures Without(Step(bs, e, lo, hi).value, Lost) <==>
            Without(bs, Lost) && (e.Allocate? ==> Without(bs[..FirstFit(bs, Units(e.nbytes))], Listed))
  {
    hide Layout;
    match e {
      case Allocate(nbytes) =>
        var n := Units(nbytes);
        var k := FirstFit(bs, n);
        var pieces := Pieces(bs[k], n);
        LoseLoses(bs[..k]);
        PiecesKept(bs[k], n);
        HeadAppend(pieces, bs[k + 1..]);
        HeadAppend(Lose(bs[..k]), pieces + bs[k + 1..]);
        SumSplit(bs, k, Lost);
        assert bs[k..][1..] == bs[k + 1..];
      case Release(a) =>
        GiveLive(bs, IndexOf(bs, a), lo, hi);
    }
  }

  lemma PiecesKept(b: Block, n: nat)
    requires b.status == Listed && n <= b.size
    ensures Without(Pieces(b, n), Lost)
  {
    var pieces := Pieces(b, n);
    assert |pieces| == 2 ==> pieces[1..] == [pieces[1]] && [pieces[1]][1..] == [];
    assert |pieces| == 1 ==> pieces[1..] == [];
  }

  lemma {:induction false} LoseLoses(bs: seq<Block>)
    ensures Without(Lose(bs), Lost) <==> Without(bs, Lost) && Without(bs, Listed)
    decreases |bs|
  {
    if bs != [] {
      LoseLoses(bs[1..]);
      assert Lose(bs)[1..] == Lose(bs[1..]);
    }
  }

  /** A run loses nothing exactly when every malloc is served by the head of the list. */
  lemma {:induction false} RunLoses(bs: seq<Block>, es: seq<Event>, lo: nat, hi: nat)
    requires Layout(bs, lo, hi) && lo > 0 && Runs(bs, es, lo, hi)
    ensures Without(After(bs, es, lo, hi), Lost) <==> Without(bs, Lost) && AtHead(bs, es, lo, hi)
    decreases |es|
  {
    hide Layout, Step, Without;
    if es != [] {
      StepLoses(bs, es[0], lo, hi);
      RunLoses(Step(bs, es[0], lo, hi).value, es[1..], lo, hi);
    }
  }

  /** i_alloc. */
  function Fresh(lo: nat, hi: nat): (bs: seq<Block>)
    requires lo < hi
    ensures Layout(bs, lo, hi)
  {
    var bs := [Block(lo, hi - lo, Listed)];
    assert bs[1..] == [];
    bs
  }

  /** Over every run memleft, which counts the listed and the lost blocks, and the live blocks add up to
      the i_alloc total; and memleft is the sum of the free list exactly when every malloc of the run was
      served by the head of the list. */
  lemma RunConserves(es: seq<Event>, lo: nat, hi: nat)
    requires 0 < lo < hi && Runs(Fresh(lo, hi), es, lo, hi)
    ensures var bs := After(Fresh(lo, hi), es, lo, hi);
            var memleft := Sum(bs, Listed) + Sum(bs, Lost);
            && memleft + Sum(bs, Live) == hi - lo
            && (memleft == Sum(bs, Listed) <==> AtHead(Fresh(lo, hi), es, lo, hi))
  {
    var bs := After(Fresh(lo, hi), es, lo, hi);
    Total(bs, lo, hi);
    RunLoses(Fresh(lo, hi), es, lo, hi);
    assert Fresh(lo, hi)[1..] == [];
    NothingLost(bs, lo, hi);
  }

  lemma {:induction false} NothingLost(bs: seq<Block>, lo: nat, hi: nat)
    requires Layout(bs, lo, hi)
    ensures Sum(bs, Lost) == 0 <==> Without(bs, Lost)
    decreases |bs|
  {
    if bs != [] {
      NothingLost(bs[1..], bs[0].End(), hi);
    }
  }

  // ---------------------------------------------------------------------------------------
  // What free undoes.

  /** frhd is NULL exactly when no block is listed. */
  lemma {:induction false} NoHead(bs: seq<Block>, lo: nat, hi: nat)
    requires Layout(bs, lo, hi) && lo > 0
    ensures Head(bs) == 0 <==> Without(bs, Listed)
    decreases |bs|
  {
    if bs != [] {
      NoHead(bs[1..], bs[0].End(), hi);
    }
  }

  /** A block that was just taken is live under its own address. */
  lemma TakenIsLive(bs: seq<Block>, k: nat, n: nat, lo: nat, hi: nat)
    requires Layout(bs, lo, hi) && k < |bs| && bs[k].status == Listed && 0 < n <= bs[k].size
    ensures Layout(Take(bs, k, n), lo, hi)
    ensures bs[k].addr in LiveAddrs(Take(bs, k, n)) && IndexOf(Take(bs, k, n), bs[k].addr) == k
  {
    hide Layout, Take;
    TakeKeeps(bs, k, n, lo, hi);
    Taken(bs, k, n, lo, hi);
    IndexIs(Take(bs, k, n), k, lo, hi);
  }

  lemma IndexIs(bs: seq<Block>, k: nat, lo: nat, hi: nat)
    requires Layout(bs, lo, hi) && k < |bs| && bs[k].status == Live
    ensures bs[k].addr in LiveAddrs(bs) && IndexOf(bs, bs[k].addr) == k
  {
    hide Layout, IndexOf;
    LiveParts(bs, k, k + 1);
    assert bs[k..k + 1][0] == bs[k];
    var j := IndexOf(bs, bs[k].addr);
    Positive(bs, j, lo, hi);
    Positive(bs, k, lo, hi);
    if j != k {
      Disjoint(bs, j, k, lo, hi);
    }
  }

  /** free(malloc(n)): the free restores the heap, addresses and sizes, exactly when malloc took the head
      of the list and did not empty it.  An emptied list stops the free at its assertion; otherwise the
      listed blocks below the one taken are lost, and all else is as before. */
  lemma FreeUndoesMalloc(bs: seq<Block>, nbytes: nat, lo: nat, hi: nat)
    requires Layout(bs, lo, hi) && lo > 0 && Step(bs, Allocate(nbytes), lo, hi).Some?
    ensures var n, k := Units(nbytes), FirstFit(bs, Units(nbytes));
            var taken := Step(bs, Allocate(nbytes), lo, hi).value;
            var empties := bs[k].size == n && Without(bs[k + 1..], Listed);
            && Legal(taken, Release(bs[k].addr))
            && Step(taken, Release(bs[k].addr), lo, hi) == (if empties then None else Some(Lose(bs[..k]) + bs[k..]))
            && (Step(taken, Release(bs[k].addr), lo, hi) == Some(bs) <==> Without(bs[..k], Listed) && !empties)
  {
    hide Layout, Take, Give, Head, Without, Lose;
    var n, k := Units(nbytes), FirstFit(bs, Units(nbytes));
    var taken := Step(bs, Allocate(nbytes), lo, hi).value;
    TakenIsLive(bs, k, n, lo, hi);
    GiveUndoesTake(bs, k, n, lo, hi);
    TakeEmpties(bs, k, n);
    NoHead(taken, lo, hi);
  }

  /** malloc leaves an empty list exactly by an exact fit of the last listed block. */
  lemma TakeEmpties(bs: seq<Block>, k: nat, n: nat)
    requires k < |bs| && bs[k].status == Listed && 0 < n <= bs[k].size
    ensures Without(Take(bs, k, n), Listed) <==> bs[k].size == n && Without(bs[k + 1..], Listed)
  {
    var pieces := Pieces(bs[k], n);
    assert |pieces| == 2 ==> pieces[1..] == [pieces[1]];
    assert |pieces| == 1 ==> pieces[1..] == [];
    HeadAppend(pieces, bs[k + 1..]);
    HeadAppend(Lose(bs[..k]), pieces + bs[k + 1..]);
  }

  /** free for each of these addresses, in this order. */
  function Releases(addrs: seq<nat>): (es: seq<Event>)
    ensures |es| == |addrs|
  {
    if addrs == [] then [] else [Release(addrs[0])] + Releases(addrs[1..])
  }

  /** Live blocks can be freed one after the other exactly when the list is not empty at the first free:
      none of the frees empties it. */
  lemma {:induction false} ReleasesRun(bs: seq<Block>, addrs: seq<nat>, lo: nat, hi: nat)
    requires Layout(bs, lo, hi) && lo > 0
    requires Distinct(addrs) && forall a <- addrs :: a in LiveAddrs(bs)
    ensures Runs(bs, Releases(addrs), lo, hi) <==> addrs == [] || Head(bs) != 0
    ensures Runs(bs, Releases(addrs), lo, hi) ==>
              After(bs, Releases(addrs), lo, hi) == GiveAll(bs, addrs, lo, hi)
    decreases |addrs|
  {
    hide Layout, Give, LiveAddrs, IndexOf, Head;
    if addrs != [] {
      var k := IndexOf(bs, addrs[0]);
      GiveKeeps(bs, k, lo, hi);
      GiveLive(bs, k, lo, hi);
      NoHead(Give(bs, k), lo, hi);
      ReleasesRun(Give(bs, k), addrs[1..], lo, hi);
      assert Releases(addrs)[1..] == Releases(addrs[1..]);
    }
  }

  /** Freeing every live block, in any order, is possible and gives one free block of the whole heap
      exactly when no block is lost and the list is not empty at the first free. */
  lemma FreeingAll(bs: seq<Block>, addrs: seq<nat>, lo: nat, hi: nat)
    requires Layout(bs, lo, hi) && 0 < lo < hi
    requires Distinct(addrs) && forall a :: a in addrs <==> a in LiveAddrs(bs)
    ensures (Runs(bs, Releases(addrs), lo, hi) && After(bs, Releases(addrs), lo, hi) == Fresh(lo, hi))
            <==> Without(bs, Lost) && (addrs == [] || Head(bs) != 0)
  {
    hide Layout;
    ReleasesRun(bs, addrs, lo, hi);
    GivingAll(bs, addrs, lo, hi);
  }

  /** After any run, freeing all live blocks in any order is possible and gives back the initial heap
      exactly when every malloc of the run was served by the head of the list and the list is not empty
      at the first free. */
  lemma FreeingAllAfterRun(es: seq<Event>, addrs: seq<nat>, lo: nat, hi: nat)
    requires 0 < lo < hi && Runs(Fresh(lo, hi), es, lo, hi)
    requires Distinct(addrs) && forall a :: a in addrs <==> a in LiveAddrs(After(Fresh(lo, hi), es, lo, hi))
    ensures var bs := After(Fresh(lo, hi), es, lo, hi);
            (Runs(bs, Releases(addrs), lo, hi) && After(bs, Releases(addrs), lo, hi) == Fresh(lo, hi))
            <==> AtHead(Fresh(lo, hi), es, lo, hi) && (addrs == [] || Head(bs) != 0)
  {
    FreeingAll(After(Fresh(lo, hi), es, lo, hi), addrs, lo, hi);
    RunLoses(Fresh(lo, hi), es, lo, hi);
    assert Fresh(lo, hi)[1..] == [];
  }

  // ---------------------------------------------------------------------------------------
  // Inputs that show the limits.

  /** Two blocks of 2 units, the first freed, then a request it is too small for. */
  const LOSING_RUN: seq<Event> := [Allocate(8), Allocate(8), Release(1), Allocate(16)]

  lemma Allocates(bs: seq<Block>, nbytes: nat, k: nat, lo: nat, hi: nat)
    requires Layout(bs, lo, hi) && lo > 0 && k < |bs| && bs[k].status == Listed && bs[k].size >= Units(nbytes)
    requires forall j :: 0 <= j < k && bs[j].status == Listed ==> bs[j].size < Units(nbytes)
    ensures FirstFit(bs, Units(nbytes)) == k
    ensures Step(bs, Allocate(nbytes), lo, hi) == Some(Take(bs, k, Units(nbytes)))
  {
    hide Layout, FirstFit, Take;
    FirstFitIs(bs, Units(nbytes), k);
  }

  lemma FirstTakes()
    ensures Take([Block(1, 10, Listed)], 0, 2) == [Block(1, 2, Live), Block(3, 8, Listed)]
    ensures Take([Block(1, 2, Live), Block(3, 8, Listed)], 1, 2) ==
            [Block(1, 2, Live), Block(3, 2, Live), Block(5, 6, Listed)]
  {
    var a, b := [Block(1, 10, Listed)], [Block(1, 2, Live), Block(3, 8, Listed)];
    assert a[..0] == [] && a[1..] == [] && b[..1] == [b[0]] && [b[0]][1..] == [] && b[2..] == [];
    assert Lose([b[0]]) == [b[0]];
  }

  lemma FirstCalls()
    ensures Step(Fresh(1, 11), Allocate(8), 1, 11) == Some([Block(1, 2, Live), Block(3, 8, Listed)])
    ensures var b := [Block(1, 2, Live), Block(3, 8, Listed)];
            && Layout(b, 1, 11)
            && Step(b, Allocate(8), 1, 11) == Some([Block(1, 2, Live), Block(3, 2, Live), Block(5, 6, Listed)])
  {
    hide Step, Take, FirstFit;
    var b := [Block(1, 2, Live), Block(3, 8, Listed)];
    assert b[1..] == [b[1]] && [b[1]][1..] == [];
    FirstTakes();
    Allocates(Fresh(1, 11), 8, 0, 1, 11);
    Allocates(b, 8, 1, 1, 11);
  }

  lemma ThirdGive()
    ensures var c := [Block(1, 2, Live), Block(3, 2, Live), Block(5, 6, Listed)];
            Give(c, 0) == [Block(1, 2, Listed), Block(3, 2, Live), Block(5, 6, Listed)]
  {
    var c := [Block(1, 2, Live), Block(3, 2, Live), Block(5, 6, Listed)];
    assert c[..0] == [] && c[1..] == [c[1], c[2]];
  }

  lemma ThirdCall()
    ensures var c := [Block(1, 2, Live), Block(3, 2, Live), Block(5, 6, Listed)];
            && Layout(c, 1, 11) && Legal(c, Release(1))
            && Step(c, Release(1), 1, 11) == Some([Block(1, 2, Listed), Block(3, 2, Live), Block(5, 6, Listed)])
  {
    hide Give;
    var c := [Block(1, 2, Live), Block(3, 2, Live), Block(5, 6, Listed)];
    assert c[1..] == [c[1], c[2]] && [c[1], c[2]][1..] == [c[2]] && [c[2]][1..] == [];
    assert IndexOf(c, 1) == 0;
    ThirdGive();
  }

  lemma FourthTake()
    ensures var d := [Block(1, 2, Listed), Block(3, 2, Live), Block(5, 6, Listed)];
            Take(d, 2, 3) == [Block(1, 2, Lost), Block(3, 2, Live), Block(5, 3, Live), Block(8, 3, Listed)]
  {
    var d := [Block(1, 2, Listed), Block(3, 2, Live), Block(5, 6, Listed)];
    assert d[..2] == [d[0], d[1]] && [d[0], d[1]][1..] == [d[1]] && [d[1]][1..] == [] && d[3..] == [];
    assert Lose([d[1]]) == [d[1]];
    assert Lose([d[0], d[1]]) == [Block(1, 2, Lost), d[1]];
  }

  lemma FourthCall()
    ensures var d := [Block(1, 2, Listed), Block(3, 2, Live), Block(5, 6, Listed)];
            && Layout(d, 1, 11) && FirstFit(d, Units(16)) == 2 && !Without(d[..2], Listed)
            && Step(d, Allocate(16), 1, 11) ==
               Some([Block(1, 2, Lost), Block(3, 2, Live), Block(5, 3, Live), Block(8, 3, Listed)])
  {
    hide Step, Take, FirstFit;
    var d := [Block(1, 2, Listed), Block(3, 2, Live), Block(5, 6, Listed)];
    assert d[1..] == [d[1], d[2]] && [d[1], d[2]][1..] == [d[2]] && [d[2]][1..] == [];
    FourthTake();
    Allocates(d, 16, 2, 1, 11);
  }

  lemma OneEvent(bs: seq<Block>, e: Event, es: seq<Event>, next: seq<Block>, lo: nat, hi: nat)
    requires Layout(bs, lo, hi) && lo > 0 && Legal(bs, e) && Step(bs, e, lo, hi) == Some(next)
    requires Runs(next, es, lo, hi)
    ensures Runs(bs, [e] + es, lo, hi) && After(bs, [e] + es, lo, hi) == After(next, es, lo, hi)
    ensures AtHead(bs, [e] + es, lo, hi) <==>
            (e.Allocate? ==> Without(bs[..FirstFit(bs, Units(e.nbytes))], Listed)) && AtHead(next, es, lo, hi)
  {
    hide Layout, Step, Legal;
    assert ([e] + es)[1..] == es;
  }

  /** In a heap of 10 units, the fourth call loses the 2 units that the third had freed. */
  lemma LosingRunLoses()
    ensures var bs := Fresh(1, 11);
            Runs(bs, LOSING_RUN, 1, 11) && !AtHead(bs, LOSING_RUN, 1, 11) &&
            After(bs, LOSING_RUN, 1, 11) == [Block(1, 2, Lost), Block(3, 2, Live), Block(5, 3, Live), Block(8, 3, Listed)]
  {
    hide Layout, Step, Fresh, Runs, After, AtHead, Without, FirstFit;
    FirstCalls();
    ThirdCall();
    FourthCall();
    var b := [Block(1, 2, Live), Block(3, 8, Listed)];
    var c := [Block(1, 2, Live), Block(3, 2, Live), Block(5, 6, Listed)];
    var d := [Block(1, 2, Listed), Block(3, 2, Live), Block(5, 6, Listed)];
    var e := [Block(1, 2, Lost), Block(3, 2, Live), Block(5, 3, Live), Block(8, 3, Listed)];
    NoEvents(e, 1, 11);
    OneEvent(d, Allocate(16), [], e, 1, 11);
    OneEvent(c, Release(1), [Allocate(16)] + [], d, 1, 11);
    OneEvent(b, Allocate(8), [Release(1)] + ([Allocate(16)] + []), c, 1, 11);
    OneEvent(Fresh(1, 11), Allocate(8), [Allocate(8)] + ([Release(1)] + ([Allocate(16)] + [])), b, 1, 11);
    assert LOSING_RUN == [Allocate(8)] + ([Allocate(8)] + ([Release(1)] + ([Allocate(16)] + [])));
  }

  lemma NoEvents(bs: seq<Block>, lo: nat, hi: nat)
    requires Layout(bs, lo, hi) && lo > 0
    ensures Runs(bs, [], lo, hi) && After(bs, [], lo, hi) == bs && AtHead(bs, [], lo, hi)
  {
  }

  /** The free list can become empty, and then the next free stops at its assertion: after an i_alloc of
      m units, one request for all of them leaves no head. */
  lemma ListCanBeEmpty(lo: nat, m: nat)
    requires lo > 0 && 0 < m < 0x1000_0000
    ensures Step(Fresh(lo, lo + m), Allocate(8 * (m - 1)), lo, lo + m) == Some([Block(lo, m, Live)])
    ensures Layout([Block(lo, m, Live)], lo, lo + m) && Legal([Block(lo, m, Live)], Release(lo))
    ensures Step([Block(lo, m, Live)], Release(lo), lo, lo + m) == None
  {
    var bs, live := Fresh(lo, lo + m), [Block(lo, m, Live)];
    assert bs[..0] == [] && bs[1..] == [] && live[1..] == [];
    assert Units(8 * (m - 1)) == m;
    assert Take(bs, 0, m) == live;
    assert Head(live) == 0;
  }
}
