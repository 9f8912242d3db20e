/** Page arithmetic: how blocks lie in a page, how a page is filled, and how mapped areas are kept
    apart. */
module Pages {
  import opened Lists
  import opened Objects

  type PageSize = n: int | n % 8 == 0 && 40 <= n <= 8192 witness 4096

  /** sysconf(_SC_PAGESIZE): any multiple of 8 for which the size table is long enough. */
  const PAGE: PageSize
  const PAGE_HEADER: int := 16  // sizeof(page)
  const BIG_BLOCK_THRESHOLD: int := PAGE - BLOCK - PAGE_HEADER
  const SIZE_TABLE: int := 8192 // length of free_blocks

  /** A page's free_block pointer, and the size word found there while the page is not full. */
  datatype PageHeader = PageHeader(free: int, avail: int)

  type Headers = map<int, PageHeader>
  type Layout = map<int, seq<int>>      // page -> addresses of its blocks, in order

  const FRESH_AVAIL: int := BIG_BLOCK_THRESHOLD

  predicate IsFull(p: int, h: PageHeader) { h.free >= p + PAGE - BLOCK }

  /** next_block */
  function NextBlock(mem: Memory, b: int): int
    requires b in mem
  {
    b + BLOCK + 8 * |mem[b]|
  }

  /** Where the i-th step of the walk over a page stands: at a block, or at free_block. */
  function Pos(bs: seq<int>, free: int, i: int): int { if 0 <= i < |bs| then bs[i] else free }

  /** bs are the blocks of page p, laid end to end from first_block to free_block. */
  ghost predicate PageOk(mem: Memory, p: int, h: PageHeader, bs: seq<int>) {
    && p % 8 == 0 && h.free % 8 == 0 && p + PAGE_HEADER <= h.free <= p + PAGE
    && (forall i :: 0 <= i < |bs| ==> bs[i] in mem && |mem[bs[i]]| >= 1 && bs[i] % 8 == 0)
    && (forall i :: 0 <= i < |bs| ==> p + PAGE_HEADER <= bs[i] && NextBlock(mem, bs[i]) <= h.free)
    && (forall i, j :: 0 <= i < j < |bs| ==> NextBlock(mem, bs[i]) <= bs[j])
    && (forall i :: 0 <= i < |bs| ==> NextBlock(mem, bs[i]) == Pos(bs, h.free, i + 1))
    && Pos(bs, h.free, 0) == p + PAGE_HEADER
    && (!IsFull(p, h) ==> h.free + BLOCK + h.avail == p + PAGE)
  }

  ghost predicate PagesOk(mem: Memory, hdr: Headers, lay: Layout, ps: seq<int>) {
    forall p :: p in ps ==> p in hdr && p in lay && PageOk(mem, p, hdr[p], lay[p])
  }

  /** All blocks on the given pages. */
  ghost function PageBlocks(lay: Layout, ps: seq<int>): set<int> {
    set p, b | p in ps && p in lay && b in lay[p] :: b
  }

  /** No block lies on two of the pages. */
  ghost predicate DisjointPages(lay: Layout, ps: seq<int>) {
    forall p, q :: p in ps && q in ps && p != q && p in lay && q in lay ==> Elems(lay[p]) !! Elems(lay[q])
  }

  // ----- the walk -----

  /** What a loop from b by next_block until free_block visits. */
  function Walk(mem: Memory, b: int, free: int): seq<int>
    decreases free - b
  {
    if b < free && b in mem then [b] + Walk(mem, NextBlock(mem, b), free) else []
  }

  lemma NextOnPage(mem: Memory, p: int, h: PageHeader, bs: seq<int>, i: nat)
    requires PageOk(mem, p, h, bs) && i < |bs|
    ensures bs[i] in mem && bs[i] < NextBlock(mem, bs[i]) <= h.free && NextBlock(mem, bs[i]) == Pos(bs, h.free, i + 1)
  {
  }

  lemma {:induction false} WalkFrom(mem: Memory, p: int, h: PageHeader, bs: seq<int>, i: nat)
    requires PageOk(mem, p, h, bs) && i <= |bs|
    ensures Walk(mem, Pos(bs, h.free, i), h.free) == bs[i..]
    decreases |bs| - i
  {
    hide Walk, NextBlock;
    if i < |bs| {
      NextOnPage(mem, p, h, bs, i);
      hide PageOk;
      WalkFrom(mem, p, h, bs, i + 1);
      WalkOne(mem, bs[i], h.free);
      assert bs[i..] == [bs[i]] + bs[i + 1..];
    } else {
      WalkEnds(mem, h.free);
    }
  }

  lemma WalkOne(mem: Memory, b: int, free: int)
    requires b in mem && b < free
    ensures Walk(mem, b, free) == [b] + Walk(mem, NextBlock(mem, b), free)
  {
  }

  lemma WalkEnds(mem: Memory, free: int)
    ensures Walk(mem, free, free) == []
  {
  }

  /** Parseability: the walk from first_block visits exactly the page's blocks, in order, and stops
      on free_block. */
  lemma PageParses(mem: Memory, p: int, h: PageHeader, bs: seq<int>)
    requires PageOk(mem, p, h, bs)
    ensures Walk(mem, p + PAGE_HEADER, h.free) == bs
  {
    WalkFrom(mem, p, h, bs, 0);
    assert bs[0..] == bs;
  }

  /** One step of such a loop that stands at the i-th block. */
  lemma WalkStep(mem: Memory, p: int, h: PageHeader, bs: seq<int>, i: nat)
    requires PageOk(mem, p, h, bs) && i <= |bs|
    ensures Pos(bs, h.free, 0) == p + PAGE_HEADER
    ensures Pos(bs, h.free, i) != h.free <==> i < |bs|
    ensures i < |bs| ==>
      && Pos(bs, h.free, i) == bs[i] && bs[i] in bs && bs[i] in mem && NextBlock(mem, bs[i]) == Pos(bs, h.free, i + 1)
      && bs[i] !in Elems(bs[..i]) && Elems(bs[..i + 1]) == Elems(bs[..i]) + {bs[i]}
  {
  }

  /** A page's shape depends on the sizes of its blocks only. */
  lemma PageOkFrame(mem: Memory, mem': Memory, p: int, h: PageHeader, bs: seq<int>)
    requires PageOk(mem, p, h, bs)
    requires forall b :: b in bs ==> b in mem' && |mem'[b]| == |mem[b]|
    ensures PageOk(mem', p, h, bs)
  {
    assert forall i :: 0 <= i < |bs| ==> bs[i] in bs && NextBlock(mem', bs[i]) == NextBlock(mem, bs[i]);
  }

  lemma PagesOkFrame(mem: Memory, mem': Memory, hdr: Headers, lay: Layout, ps: seq<int>)
    requires PagesOk(mem, hdr, lay, ps)
    requires forall b :: b in PageBlocks(lay, ps) ==> b in mem' && |mem'[b]| == |mem[b]|
    ensures PagesOk(mem', hdr, lay, ps)
  {
    forall p | p in ps
      ensures PageOk(mem', p, hdr[p], lay[p])
    {
      assert forall b :: b in lay[p] ==> b in PageBlocks(lay, ps);
      assert forall b :: b in lay[p] ==> b in mem' && |mem'[b]| == |mem[b]|;
      PageOkFrame(mem, mem', p, hdr[p], lay[p]);
    }
  }

  lemma Multiples(a: int, n: int)
    requires a % 8 == 0
    ensures (a + 8 * n) % 8 == 0
  {
  }

  /** Carving a block off the front of the free block keeps the page parseable, and what is left
      over is empty or a positive multiple of 8. */
  lemma Carve(mem: Memory, mem': Memory, p: int, h: PageHeader, bs: seq<int>, h': PageHeader)
    requires PageOk(mem, p, h, bs) && !IsFull(p, h)
    requires h.free in mem' && 1 <= |mem'[h.free]| && 8 * |mem'[h.free]| <= h.avail
    requires forall b :: b in bs ==> b in mem' && |mem'[b]| == |mem[b]|
    requires h'.free == NextBlock(mem', h.free)
    requires !IsFull(p, h') ==> h'.avail == h.avail - 8 * |mem'[h.free]| - BLOCK
    ensures PageOk(mem', p, h', bs + [h.free])
    ensures !IsFull(p, h') ==> h'.avail >= 8 && h'.avail % 8 == 0
  {
    var bs' := bs + [h.free];
    PageOkFrame(mem, mem', p, h, bs);
    Multiples(h.free, 1 + |mem'[h.free]|);
    CarveWalk(mem', p, h, bs, h');
    assert forall i :: 0 <= i < |bs| ==> bs'[i] == bs[i];
    if !IsFull(p, h') {
      AvailMultiple(p, h');
    }
  }

  /** The room of a page that has any: a positive multiple of 8, and no more than a fresh page has. */
  lemma RoomOfPage(mem: Memory, p: int, h: PageHeader, bs: seq<int>)
    requires PageOk(mem, p, h, bs) && !IsFull(p, h)
    ensures 8 <= h.avail <= BIG_BLOCK_THRESHOLD && h.avail % 8 == 0
  {
    AvailMultiple(p, h);
  }

  lemma Mapped(mem: Memory, hdr: Headers, lay: Layout, ps: seq<int>, p: int)
    requires PagesOk(mem, hdr, lay, ps) && p in ps
    ensures p in hdr && p in lay
    ensures !IsFull(p, hdr[p]) ==> 8 <= hdr[p].avail <= BIG_BLOCK_THRESHOLD && hdr[p].avail % 8 == 0
  {
    if !IsFull(p, hdr[p]) { RoomOfPage(mem, p, hdr[p], lay[p]); }
  }

  lemma AvailMultiple(p: int, h: PageHeader)
    requires p % 8 == 0 && h.free % 8 == 0 && !IsFull(p, h) && h.free + BLOCK + h.avail == p + PAGE
    ensures h.avail >= 8 && h.avail % 8 == 0
  {
  }

  lemma CarveWalk(mem: Memory, p: int, h: PageHeader, bs: seq<int>, h': PageHeader)
    requires PageOk(mem, p, h, bs) && !IsFull(p, h)
    requires h.free in mem && h'.free == NextBlock(mem, h.free)
    ensures var bs' := bs + [h.free];
            forall i :: 0 <= i < |bs'| ==> NextBlock(mem, bs'[i]) == Pos(bs', h'.free, i + 1)
    ensures Pos(bs + [h.free], h'.free, 0) == p + PAGE_HEADER
  {
  }

  lemma BlocksJoin(lay: Layout, ps: seq<int>, qs: seq<int>)
    ensures PageBlocks(lay, ps + qs) == PageBlocks(lay, ps) + PageBlocks(lay, qs)
  {
  }

  lemma BlocksOfOne(lay: Layout, p: int)
    requires p in lay
    ensures PageBlocks(lay, [p]) == Elems(lay[p])
  {
    forall x | x in lay[p]
      ensures x in PageBlocks(lay, [p])
    {
      assert p in [p] && p in lay && x in lay[p];
    }
    forall x | x in PageBlocks(lay, [p])
      ensures x in lay[p]
    {
      var q :| q in [p] && q in lay && x in lay[q];
    }
  }

  lemma MoreBlocks(lay: Layout, ps: seq<int>, p: int)
    requires p in lay
    ensures PageBlocks(lay, [p] + ps) == PageBlocks(lay, ps) + Elems(lay[p])
    ensures PageBlocks(lay, ps + [p]) == PageBlocks(lay, ps) + Elems(lay[p])
  {
    BlocksOfOne(lay, p);
    BlocksJoin(lay, [p], ps);
    BlocksJoin(lay, ps, [p]);
  }

  lemma NoBlocks(lay: Layout)
    ensures PageBlocks(lay, []) == {}
  {
  }

  lemma OpenedBlocks(lay: Layout, lay': Layout, ps: seq<int>, p: int)
    requires p !in ps && lay' == lay[p := []]
    ensures PageBlocks(lay', ps + [p]) == PageBlocks(lay, ps)
  {
    forall x | x in PageBlocks(lay', ps + [p])
      ensures x in PageBlocks(lay, ps)
    {
      var q :| q in ps + [p] && q in lay' && x in lay'[q];
      assert q != p && q in ps && x in lay[q];
    }
    forall x | x in PageBlocks(lay, ps)
      ensures x in PageBlocks(lay', ps + [p])
    {
      var q :| q in ps && q in lay && x in lay[q];
      assert q in ps + [p] && x in lay'[q];
    }
  }

  lemma FilledBlocks(lay: Layout, lay': Layout, ps: seq<int>, p: int, b: int)
    requires p in ps && p in lay && lay' == lay[p := lay[p] + [b]]
    ensures PageBlocks(lay', ps) == PageBlocks(lay, ps) + {b}
  {
    forall x | x in PageBlocks(lay, ps)
      ensures x in PageBlocks(lay', ps)
    {
      var q :| q in ps && q in lay && x in lay[q];
      assert x in lay'[q];
    }
    assert b in lay'[p];
  }

  // ----- mapped areas -----

  predicate Apart(p: int, q: int) { p + PAGE <= q || q + PAGE <= p }

  /** A big block with its header of two words lies outside page p. */
  predicate OutsidePage(mem: Memory, b: int, p: int)
    requires b in mem
  {
    NextBlock(mem, b) <= p || p + PAGE <= b - 8
  }

  predicate BigApart(mem: Memory, a: int, b: int)
    requires a in mem && b in mem
  {
    NextBlock(mem, a) <= b - 8 || NextBlock(mem, b) <= a - 8
  }

  /** Pages and big blocks are mapped below brk, at multiples of 8, and do not overlap. */
  ghost predicate AreasOk(mem: Memory, ps: set<int>, big: seq<int>, brk: int) {
    && brk % 8 == 0 && brk >= 8
    && (forall p :: p in ps ==> p % 8 == 0 && 8 <= p && p + PAGE <= brk)
    && (forall p, q :: p in ps && q in ps && p != q ==> Apart(p, q))
    && (forall b :: b in big ==> b in mem && |mem[b]| >= 1 && b % 8 == 0 && 16 <= b && NextBlock(mem, b) <= brk)
    && (forall b, p :: b in big && p in ps ==> OutsidePage(mem, b, p))
    && (forall a, b :: a in big && b in big && a != b ==> BigApart(mem, a, b))
    && NoDup(big)
  }

  lemma BlockInPage(mem: Memory, p: int, h: PageHeader, bs: seq<int>, b: int)
    requires PageOk(mem, p, h, bs) && b in bs
    ensures b in mem && b % 8 == 0 && |mem[b]| >= 1 && p + PAGE_HEADER <= b && NextBlock(mem, b) <= h.free
  {
  }

  /** A block on a page is mapped, and fits a fresh page. */
  lemma BlockKnown(mem: Memory, hdr: Headers, lay: Layout, ps: seq<int>, b: int)
    requires PagesOk(mem, hdr, lay, ps) && b in PageBlocks(lay, ps)
    ensures b in mem && b % 8 == 0 && 1 <= |mem[b]| && 8 * |mem[b]| <= BIG_BLOCK_THRESHOLD
  {
  }

  /** Different pages share no block, and free_block is on no page's block list. */
  lemma PagesDisjoint(mem: Memory, hdr: Headers, lay: Layout, ps: seq<int>, p: int, q: int)
    requires PagesOk(mem, hdr, lay, ps) && p in ps && q in ps && p != q && Apart(p, q)
    ensures forall b :: b in lay[p] ==> b !in lay[q]
    ensures !IsFull(p, hdr[p]) ==> hdr[p].free !in lay[q]
  {
  }

  /** The free block of a page that is not full is at an address no block has. */
  lemma FreeBlockIsNew(mem: Memory, hdr: Headers, lay: Layout, ps: seq<int>, all: set<int>, big: seq<int>, brk: int,
                    p: int)
    requires PagesOk(mem, hdr, lay, ps) && AreasOk(mem, all, big, brk) && Elems(ps) <= all
    requires p in ps && !IsFull(p, hdr[p])
    ensures hdr[p].free != NULL && hdr[p].free !in PageBlocks(lay, ps) && hdr[p].free !in big
  {
    var b := hdr[p].free;
    forall q | q in ps
      ensures b !in lay[q]
    {
      assert q in Elems(ps) && p in Elems(ps);
      if q != p {
        PagesDisjoint(mem, hdr, lay, ps, p, q);
      } else if b in lay[p] {
        BlockInPage(mem, p, hdr[p], lay[p], b);
      }
    }
    assert p in Elems(ps);
    assert b in big ==> OutsidePage(mem, b, p);
  }

  lemma BigMapped(mem: Memory, ps: set<int>, big: seq<int>, brk: int)
    requires AreasOk(mem, ps, big, brk)
    ensures forall b :: b in big ==> b in mem && |mem[b]| >= 1 && b % 8 == 0 && 16 <= b && NextBlock(mem, b) <= brk
  {
  }

  lemma AreasOkFrame(mem: Memory, mem': Memory, ps: set<int>, big: seq<int>, brk: int)
    requires AreasOk(mem, ps, big, brk)
    requires forall b :: b in big ==> b in mem' && |mem'[b]| == |mem[b]|
    ensures AreasOk(mem', ps, big, brk)
  {
  }

  lemma SupplyDisjoint(mem: Memory, hdr: Headers, lay: Layout, ps: seq<int>, all: set<int>, big: seq<int>, brk: int)
    requires PagesOk(mem, hdr, lay, ps) && AreasOk(mem, all, big, brk) && Elems(ps) <= all
    ensures DisjointPages(lay, ps)
    ensures Elems(big) !! PageBlocks(lay, ps)
  {
    forall p, q | p in ps && q in ps && p != q && p in lay && q in lay
      ensures Elems(lay[p]) !! Elems(lay[q])
    {
      assert p in Elems(ps) && q in Elems(ps);
      PagesDisjoint(mem, hdr, lay, ps, p, q);
    }
    forall p, b | p in ps && b in lay[p]
      ensures b !in big
    {
      assert p in Elems(ps);
      BlockInPage(mem, p, hdr[p], lay[p], b);
      assert b in big ==> OutsidePage(mem, b, p);
    }
  }

  /** The i-th page of a list against the pages before it. */
  lemma BlocksUpTo(lay: Layout, ps: seq<int>, i: nat)
    requires DisjointPages(lay, ps) && NoDup(ps) && i < |ps| && ps[i] in lay
    ensures PageBlocks(lay, ps[..i + 1]) == PageBlocks(lay, ps[..i]) + Elems(lay[ps[i]])
    ensures Elems(lay[ps[i]]) !! PageBlocks(lay, ps[..i])
  {
    var p, before := ps[i], ps[..i];
    NewAt(ps, i);
    assert ps[..i + 1] == before + [p];
    MoreBlocks(lay, before, p);
    forall b | b in lay[p]
      ensures b !in PageBlocks(lay, before)
    {
      assert b in Elems(lay[p]);
      forall q | q in before && q in lay
        ensures b !in lay[q]
      {
        assert b !in Elems(lay[q]);
      }
    }
  }
}
