/** The first part of sweep: big blocks are freed in place, and pages with a pinned block are taken
    out of the page list, to stay where they are. */
module SweepPinned {
  import opened Lists
  import opened Objects
  import opened Pages
  import opened Heaps
  import opened SizeTable

  lemma AreasOkKeep(mem: Memory, ps: set<int>, big: seq<int>, brk: int, k: set<int>)
    requires AreasOk(mem, ps, big, brk)
    ensures AreasOk(mem, ps, Keep(big, k), brk)
  {
    Members(big, k);
    NoDupSplit(big, k);
  }

  /** sweep_big_blocks: what is neither marked nor pinned goes, in one pass with a trailing pointer. */
  method UnlinkBig(h: Heap)
    requires NoDup(h.big)
    modifies h`big, h`marked, h`pinned
    ensures h.big == Keep(old(h.big), old(h.marked + h.pinned))
    ensures h.marked == old(h.marked) - Elems(h.big) && h.pinned == old(h.pinned) - Elems(h.big)
  {
    hide NoDup, Keep, Elems;
    ghost var list, keep := h.big, h.marked + h.pinned;
    ghost var i := 0;
    var k := 0;                           // index of `big`; its predecessor is `prev`
    assert list[..0] == [] && list[0..] == list;
    KeepNone(keep);
    while k < |h.big|
      invariant 0 <= i <= |list| && k == |Keep(list[..i], keep)| && h.big == Keep(list[..i], keep) + list[i..]
      invariant h.marked == old(h.marked) - Elems(Keep(list[..i], keep))
      invariant h.pinned == old(h.pinned) - Elems(Keep(list[..i], keep))
      decreases |list| - i
    {
      var b := h.big[k];
      ghost var next := UnlinkStep(list, h.big, keep, i, k);
      if b !in h.marked && b !in h.pinned {
        h.big := h.big[..k] + h.big[k + 1..];
      } else {
        h.pinned := h.pinned - {b};
        h.marked := h.marked - {b};
        k := k + 1;
      }
      i := i + 1;
    }
    assert list[..i] == list;
  }

  method SweepBigBlocks(h: Heap)
    requires h.Supply(h.firstPage)
    modifies h`big, h`marked, h`pinned
    ensures h.big == Keep(old(h.big), old(h.marked + h.pinned))
    ensures h.marked == old(h.marked) - Elems(h.big) && h.pinned == old(h.pinned) - Elems(h.big)
    ensures h.Supply(h.firstPage)
  {
    hide PageOk, PagesOk, Pow2;
    AreasOkKeep(h.mem, Elems(h.firstPage + h.pool), h.big, h.brk, h.marked + h.pinned);
    UnlinkBig(h);
  }

  // ----- pages with a pinned block -----

  ghost predicate PageHasPin(lay: Layout, pinned: set<int>, p: int) {
    p in lay && exists b :: b in lay[p] && b in pinned
  }

  /** The pages among ps that have to stay where they are. */
  ghost function PinnedPages(lay: Layout, pinned: set<int>, ps: seq<int>): set<int> {
    set p | p in ps && PageHasPin(lay, pinned, p)
  }

  /** The first walk over a page: is any block on it pinned? */
  method FindPinned(h: Heap, p: int) returns (found: bool)
    requires p in h.hdr && p in h.lay && PageOk(h.mem, p, h.hdr[p], h.lay[p])
    ensures found <==> PageHasPin(h.lay, h.pinned, p)
  {
    ghost var bs, i := h.lay[p], 0;
    var free := h.hdr[p].free;
    var b := p + PAGE_HEADER;
    found := false;
    while b != free
      invariant 0 <= i <= |bs| && b == Pos(bs, free, i)
      invariant forall j :: 0 <= j < i ==> bs[j] !in h.pinned
      decreases |bs| - i
    {
      if b in h.pinned {
        assert b in bs;
        return true;
      }
      b := NextBlock(h.mem, b);
      i := i + 1;
    }
  }

  /** The second walk, over a page that stays: what is neither marked nor pinned is flagged dead,
      and the marks and pins are cleared. */
  method SettlePage(h: Heap, p: int)
    requires p in h.hdr && p in h.lay && PageOk(h.mem, p, h.hdr[p], h.lay[p])
    modifies h`marked, h`pinned, h`dead
    ensures h.marked == old(h.marked) - Elems(h.lay[p]) && h.pinned == old(h.pinned) - Elems(h.lay[p])
    ensures h.dead == old(h.dead) + (Elems(h.lay[p]) - old(h.marked) - old(h.pinned))
  {
    hide PageOk, NoDup, Elems, Pos;
    ghost var bs, i := h.lay[p], 0;
    var free := h.hdr[p].free;
    var b := p + PAGE_HEADER;
    assert bs[..0] == [];
    KeepNone({});
    WalkStep(h.mem, p, h.hdr[p], bs, 0);
    while b != free
      invariant 0 <= i <= |bs| && b == Pos(bs, free, i)
      invariant h.marked == old(h.marked) - Elems(bs[..i]) && h.pinned == old(h.pinned) - Elems(bs[..i])
      invariant h.dead == old(h.dead) + (Elems(bs[..i]) - old(h.marked) - old(h.pinned))
      decreases |bs| - i
    {
      WalkStep(h.mem, p, h.hdr[p], bs, i);
      if b !in h.marked && b !in h.pinned {
        h.dead := h.dead + {b};
      }
      h.marked := h.marked - {b};
      h.pinned := h.pinned - {b};
      b := NextBlock(h.mem, b);
      i := i + 1;
    }
    WalkStep(h.mem, p, h.hdr[p], bs, i);
    assert bs[..i] == bs;
  }

  /** Clearing the pins of other pages does not change whether a page has one. */
  lemma PinStays(lay: Layout, pinned: set<int>, ps: seq<int>, alive: seq<int>, p: int)
    requires DisjointPages(lay, ps) && p in ps && p in lay && p !in alive && forall q :: q in alive ==> q in ps
    ensures PageHasPin(lay, pinned - PageBlocks(lay, alive), p) <==> p in PinnedPages(lay, pinned, ps)
    ensures Elems(lay[p]) !! PageBlocks(lay, alive)
  {
    forall b | b in lay[p]
      ensures b !in PageBlocks(lay, alive)
    {
      assert b in Elems(lay[p]);
      forall q | q in alive && q in lay
        ensures b !in lay[q]
      {
        assert b !in Elems(lay[q]);
      }
    }
  }

  /** The whole of a pinned page's turn, its unlinking apart. */
  method StayPut(h: Heap, p: int, alive: seq<int>) returns (alive': seq<int>)
    requires p in h.hdr && p in h.lay && PageOk(h.mem, p, h.hdr[p], h.lay[p]) && p !in alive
    requires h.freeBlocks.Length == SIZE_TABLE && IndexOk(h.freeBlocks[..], h.maxFreeBlock, Elems(alive), h.hdr)
    requires forall q :: q in alive ==> q in h.hdr
    modifies h`lastPage, h`marked, h`pinned, h`dead, h`maxFreeBlock, h.freeBlocks
    ensures alive' == [p] + alive
    ensures h.lastPage == if alive == [] then p else old(h.lastPage)
    ensures h.marked == old(h.marked) - Elems(h.lay[p]) && h.pinned == old(h.pinned) - Elems(h.lay[p])
    ensures h.dead == old(h.dead) + (Elems(h.lay[p]) - old(h.marked) - old(h.pinned))
    ensures IndexOk(h.freeBlocks[..], h.maxFreeBlock, Elems(alive'), h.hdr)
  {
    hide PageOk, IndexOk;
    alive' := [p] + alive;
    if |alive'| == 1 {
      h.lastPage := p;
    }
    SettlePage(h, p);
    if !IsFull(p, h.hdr[p]) { RoomOfPage(h.mem, p, h.hdr[p], h.lay[p]); }
    AddToIndex(h, p, Elems(alive));
    assert Elems(alive') == Elems(alive) + {p};
  }

  /** Every page with a pinned block is moved from the page list to the front of the alive list. */
  method SeparatePinned(h: Heap) returns (alive: seq<int>)
    requires NoDup(h.firstPage) && PagesOk(h.mem, h.hdr, h.lay, h.firstPage) && DisjointPages(h.lay, h.firstPage)
    requires h.freeBlocks.Length == SIZE_TABLE && IndexEmpty(h.freeBlocks[..])
    modifies h`firstPage, h`lastPage, h`marked, h`pinned, h`dead, h`maxFreeBlock, h.freeBlocks
    ensures var stay := PinnedPages(h.lay, old(h.pinned), old(h.firstPage));
            && h.firstPage == Keep(old(h.firstPage), Elems(old(h.firstPage)) - stay)
            && alive == Reverse(Keep(old(h.firstPage), stay))
    ensures h.lastPage == if alive == [] then NULL else alive[|alive| - 1]
    ensures var settled := PageBlocks(h.lay, alive);
            && h.marked == old(h.marked) - settled && h.pinned == old(h.pinned) - settled
            && h.dead == old(h.dead) + (settled - old(h.marked) - old(h.pinned))
    ensures IndexOk(h.freeBlocks[..], h.maxFreeBlock, Elems(alive), h.hdr)
  {
    hide PageOk, IndexOk, IndexEmpty, NoDup, Elems, Keep, PageBlocks, PinnedPages, PageHasPin, DisjointPages, Reverse;
    ghost var list, stay := h.firstPage, PinnedPages(h.lay, h.pinned, h.firstPage);
    ghost var go := Elems(list) - stay;
    ghost var i := 0;
    h.maxFreeBlock := 0;
    h.lastPage := NULL;
    alive := [];
    var k := 0;                           // index of curr_page in the page list; its predecessor is prev_page
    assert list[..0] == [] && list[0..] == list;
    KeepNone(go);
    KeepNone(stay);
    NoBlocks(h.lay);
    EmptyIndex(h.freeBlocks[..], h.hdr);
    while k < |h.firstPage|
      invariant 0 <= i <= |list| && k == |Keep(list[..i], go)| && h.firstPage == Keep(list[..i], go) + list[i..]
      invariant alive == Reverse(Keep(list[..i], stay))
      invariant h.lastPage == if alive == [] then NULL else alive[|alive| - 1]
      invariant h.marked == old(h.marked) - PageBlocks(h.lay, alive)
                && h.pinned == old(h.pinned) - PageBlocks(h.lay, alive)
      invariant h.dead == old(h.dead) + (PageBlocks(h.lay, alive) - old(h.marked) - old(h.pinned))
      invariant IndexOk(h.freeBlocks[..], h.maxFreeBlock, Elems(alive), h.hdr)
      decreases |list| - i
    {
      var p := h.firstPage[k];
      ghost var next := UnlinkStep(list, h.firstPage, go, i, k);
      SeparateStep(h.lay, old(h.pinned), list, alive, i);
      var found := FindPinned(h, p);
      if found {
        h.firstPage := h.firstPage[..k] + h.firstPage[k + 1..];
        alive := StayPut(h, p, alive);
      } else {
        k := k + 1;
      }
      i := i + 1;
    }
    assert list[..i] == list;
  }

  /** What the turn of the i-th page of the list does to the alive list and to its blocks. */
  lemma SeparateStep(lay: Layout, pinned: set<int>, list: seq<int>, alive: seq<int>, i: nat)
    requires NoDup(list) && DisjointPages(lay, list) && i < |list| && list[i] in lay
    requires var stay := PinnedPages(lay, pinned, list); alive == Reverse(Keep(list[..i], stay))
    ensures var p, stay := list[i], PinnedPages(lay, pinned, list);
      && p !in alive && (forall q :: q in alive ==> q in list)
      && (PageHasPin(lay, pinned - PageBlocks(lay, alive), p) <==> p in stay)
      && (p in Elems(list) - stay <==> p !in stay)
      && (p in stay ==> Reverse(Keep(list[..i + 1], stay)) == [p] + alive)
      && (p !in stay ==> Reverse(Keep(list[..i + 1], stay)) == alive)
      && PageBlocks(lay, [p] + alive) == PageBlocks(lay, alive) + Elems(lay[p])
      && Elems(lay[p]) !! PageBlocks(lay, alive)
  {
    var p, stay := list[i], PinnedPages(lay, pinned, list);
    StepPrefix(list, stay, i);
    Members(list[..i], stay);
    Members(Keep(list[..i], stay), stay);
    assert Keep(list[..i], stay) + [] == Keep(list[..i], stay);
    NewAt(list, i);
    PinStays(lay, pinned, list, alive, p);
    ReverseSnoc(Keep(list[..i], stay), p);
    MoreBlocks(lay, alive, p);
  }
}
