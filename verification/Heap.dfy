/** The allocator of malloc.cpp: page supply, carving of blocks, and the heap invariant. */
module Heaps {
  import opened Lists
  import opened Objects
  import opened Pages
  import opened Words

  function Pow2(n: nat): (r: nat)
    ensures r >= 1
  {
    if n == 0 then 1 else 2 * Pow2(n - 1)
  }

  function Zeros(n: nat): (d: Payload)
    ensures |d| == n && forall i :: 0 <= i < n ==> d[i] == ZERO
  {
    seq(n, _ => ZERO)
  }

  /** Every size class of free_blocks is empty. */
  ghost predicate IndexEmpty(index: seq<seq<int>>) {
    |index| == SIZE_TABLE && forall k :: 0 <= k < SIZE_TABLE ==> index[k] == []
  }

  /** No root word is composite, and each that is not null points into u. */
  ghost predicate RootsInto(roots: seq<seq<Word>>, u: set<int>) {
    forall t, i :: 0 <= t < |roots| && 0 <= i < |roots[t]| ==> RootInto(roots[t][i], u)
  }

  predicate RootInto(w: Word, u: set<int>) { !IsComposite(w) && (IsNullWord(w) || TargetOf(w) in u) }

  /** The global state of malloc.cpp. A block's flag bits are kept as membership in three sets; the
      linked page lists are sequences, first page first. */
  class Heap {
    var shells: Shells
    var mem: Memory
    var marked: set<int>
    var pinned: set<int>
    var dead: set<int>
    var hdr: Headers
    ghost var lay: Layout
    var firstPage: seq<int>             // the pages in use, from first_page on
    var lastPage: int
    var pool: seq<int>                  // the pages of free_list
    var big: seq<int>                   // the big blocks, from first_big_block on
    const freeBlocks: array<seq<int>>   // pages with room, by the size of the room
    var maxFreeBlock: int
    var pagePerMap: int
    var freePages: int
    var totalPages: int
    ghost var expansions: nat
    var brk: int                        // everything mapped so far lies below
    var roots: seq<seq<Word>>           // the registered gc_ptr words, one chain for each thread

    constructor ()
      ensures mem == map[] && hdr == map[] && marked == {} && pinned == {} && dead == {}
      ensures Valid() && LiveOk({}) && shells == map[] && firstPage == [] && big == [] && pool == []
      ensures expansions == 0 && fresh(freeBlocks) && roots == []
    {
      shells, mem := map[], map[];
      marked, pinned, dead := {}, {}, {};
      hdr, lay := map[], map[];
      firstPage, lastPage, pool, big := [], NULL, [], [];
      freeBlocks := new seq<int>[SIZE_TABLE](_ => []);
      maxFreeBlock := 0;
      pagePerMap, freePages, totalPages := 32, 0, 0;
      expansions := 0;
      brk := 8;
      roots := [];
    }

    /** The page supply, given the pages that are in use: the two share no page, everything mapped
        is disjoint, and the counters are exact. */
    ghost predicate Supply(used: seq<int>)
      reads `mem, `hdr, `lay, `pool, `big, `brk, `freePages, `totalPages, `pagePerMap, `expansions
    {
      && NoDup(used + pool)
      && AreasOk(mem, Elems(used + pool), big, brk)
      && PagesOk(mem, hdr, lay, used)
      && freePages == |pool|
      && totalPages == |used| + |pool|
      && pagePerMap == 32 * Pow2(expansions)
      && totalPages == 32 * (Pow2(expansions) - 1)
    }

    ghost function Blocks(): set<int>
      reads `lay, `firstPage, `big
    {
      PageBlocks(lay, firstPage) + Elems(big)
    }

    ghost function Live(): set<int>
      reads `lay, `firstPage, `big, `dead
    {
      Blocks() - dead
    }

    /** Outside a collection: no block is marked or pinned, and the size table is empty. */
    ghost predicate Valid()
      reads this, freeBlocks
    {
      && Supply(firstPage)
      && lastPage == (if firstPage == [] then NULL else firstPage[|firstPage| - 1])
      && freeBlocks.Length == SIZE_TABLE && IndexEmpty(freeBlocks[..]) && maxFreeBlock == 0
      && marked !! Blocks() && pinned !! Blocks() && dead !! Elems(big)
    }

    /** is_heap_pointer: the closed parts of the heap that hold pages, and the big blocks. */
    predicate IsHeapPointer(w: int)
      reads `firstPage, `pool, `big, `mem
    {
      || (exists p :: p in firstPage + pool && p <= w <= p + PAGE)
      || exists b :: b in big && b in mem && b - 8 <= w < NextBlock(mem, b)
    }

    /** The last page can take s bytes without a new page. */
    predicate RoomFor(s: int)
      reads this
    {
      lastPage in hdr && !IsFull(lastPage, hdr[lastPage]) && s <= hdr[lastPage].avail
    }

    /** One page has left the free list, from the front, or is the one not put there of a batch just mapped. */
    predicate PageTaken(pool0: seq<int>, batch: int)
      reads `pool, `lastPage
    {
      if pool0 != [] then [lastPage] + pool == pool0 else |pool| == batch - 1
    }

    /** Live blocks are well formed objects that point to live blocks only, as do the roots; a block
        in `raw` has been allocated but has no meta yet. */
    ghost predicate LiveOk(raw: set<int>)
      reads `shells, `mem, `lay, `firstPage, `big, `dead, `roots
    {
      && Graph(shells, mem, Live(), raw)
      && RootsInto(roots, Live())
    }

    /** request_new_page: a page off the free list, after mapping pagePerMap fresh ones if the list
        is empty and the caller allows it. */
    method RequestNewPage(expand: bool, ghost used: seq<int>) returns (p: int)
      requires Supply(used)
      modifies `pool, `brk, `freePages, `totalPages, `pagePerMap, `expansions, `hdr, `lay
      ensures p == NULL <==> old(pool) == [] && !expand
      ensures p == NULL ==> unchanged(this)
      ensures p != NULL ==> Supply(used + [p]) && p !in used
      ensures p != NULL ==> hdr == old(hdr)[p := PageHeader(p + PAGE_HEADER, FRESH_AVAIL)] && lay == old(lay)[p := []]
      ensures old(pool) != [] ==> [p] + pool == old(pool) && expansions == old(expansions)
      ensures old(pool) == [] && expand ==> |pool| == old(pagePerMap) - 1 && expansions == old(expansions) + 1
    {
      hide AreasOk, PageOk, PagesOk, Pow2, NoDup;
      if pool == [] {
        if !expand {
          return NULL;
        }
        Expand(used);
      }
      p := pool[0];
      NewPage(mem, hdr, lay, used, pool, big, brk);
      pool := pool[1..];
      hdr := hdr[p := PageHeader(p + PAGE_HEADER, FRESH_AVAIL)];
      lay := lay[p := []];
      freePages := freePages - 1;
    }

    method Expand(ghost used: seq<int>)
      requires Supply(used) && pool == []
      modifies `pool, `brk, `freePages, `totalPages, `pagePerMap, `expansions
      ensures Supply(used) && |pool| == old(pagePerMap) && expansions == old(expansions) + 1
      ensures pool[|pool| - 1] == old(brk) && forall k :: 0 < k < |pool| ==> pool[k - 1] == pool[k] + PAGE
    {
      var ptr := brk;
      var i := 0;
      while i < pagePerMap
        invariant 0 <= i <= pagePerMap == old(pagePerMap) && expansions == old(expansions) && ptr == brk
        invariant |pool| == i && freePages == i && totalPages == old(totalPages) + i
        invariant i > 0 ==> pool[i - 1] == old(brk) && pool[0] + PAGE == ptr
        invariant i == 0 ==> ptr == old(brk)
        invariant forall k :: 0 < k < i ==> pool[k - 1] == pool[k] + PAGE
        invariant NoDup(used + pool) && AreasOk(mem, Elems(used + pool), big, brk)
      {
        AddArea(mem, used, pool, big, brk);
        pool := [ptr] + pool;
        ptr := ptr + PAGE;
        brk := ptr;
        freePages := freePages + 1;
        totalPages := totalPages + 1;
        i := i + 1;
      }
      pagePerMap := 2 * pagePerMap;
      expansions := expansions + 1;
    }

    /** malloc_in_page: the block is carved off the free block of p, zeroed, with clear flags. */
    method MallocInPage(s: nat, p: int, ghost used: seq<int>) returns (b: int)
      requires Supply(used) && p in used
      requires s % 8 == 0 && 8 <= s && !IsFull(p, hdr[p]) && s <= hdr[p].avail
      modifies `mem, `hdr, `lay, `marked, `pinned, `dead
      ensures Supply(used)
      ensures b == old(hdr)[p].free && b != NULL && b !in old(PageBlocks(lay, used)) && b !in big
      ensures mem == old(mem)[b := Zeros(s / 8)]
      ensures lay == old(lay)[p := old(lay)[p] + [b]]
      ensures hdr == old(hdr)[p := hdr[p]]
      ensures hdr[p].free == old(hdr)[p].free + BLOCK + s
      ensures !IsFull(p, hdr[p]) ==> hdr[p].avail == old(hdr)[p].avail - s - BLOCK
      ensures !IsFull(p, hdr[p]) ==> 8 <= hdr[p].avail && hdr[p].avail % 8 == 0
      ensures IsFull(p, hdr[p]) ==> hdr[p].avail == old(hdr)[p].avail
      ensures marked == old(marked) - {b} && pinned == old(pinned) - {b} && dead == old(dead) - {b}
    {
      hide AreasOk, PageOk, PagesOk, NoDup, PageBlocks, Pow2, Elems, Zeros;
      Mapped(mem, hdr, lay, used, p);
      var h := hdr[p];
      b := h.free;
      var room := s + BLOCK;
      var h' := PageHeader(h.free + room, h.avail);
      if !IsFull(p, h') {
        h' := h'.(avail := h.avail - room);
      }
      CarveSupply(mem, hdr, lay, used, pool, big, brk, p, s, h');
      hdr := hdr[p := h'];
      lay := lay[p := lay[p] + [b]];
      mem := mem[b := Zeros(s / 8)];
      marked, pinned, dead := marked - {b}, pinned - {b}, dead - {b};
    }

    /** The part of gcmalloc that holds malloc_mutex. Blocks are named by the address of their size
        word; NULL stands for failure, which asks for a collection. */
    method Request(s: nat, expand: bool) returns (b: int)
      requires Valid()
      modifies this
      ensures Valid() && unchanged(`shells, `roots)
      ensures b == NULL <==>
              !expand && Align(s) <= BIG_BLOCK_THRESHOLD
              && old(firstPage) != [] && !old(RoomFor(Align(s))) && old(pool) == []
      ensures b == NULL ==> unchanged(this)
      ensures b != NULL ==> Allocated(old(mem), old(big), old(Blocks()), old(marked), old(pinned), old(dead), b,
              Align(s))
      ensures b != NULL ==> big == if Align(s) > BIG_BLOCK_THRESHOLD then [b] + old(big) else old(big)
      ensures old(firstPage) != [] && Align(s) > BIG_BLOCK_THRESHOLD ==> unchanged(`firstPage, `lastPage, `pool)
      ensures b != NULL && old(firstPage) != [] && Align(s) <= BIG_BLOCK_THRESHOLD && old(RoomFor(Align(s))) ==>
              unchanged(`firstPage, `lastPage, `pool) && b == old(hdr)[lastPage].free
      ensures b != NULL && old(firstPage) != [] && Align(s) <= BIG_BLOCK_THRESHOLD && !old(RoomFor(Align(s))) ==>
              firstPage == old(firstPage) + [lastPage] && b == lastPage + PAGE_HEADER
              && PageTaken(old(pool), old(pagePerMap))
      ensures old(firstPage) == [] ==> b != NULL && firstPage == [lastPage] && PageTaken(old(pool), old(pagePerMap))
      ensures b != NULL && old(LiveOk({})) ==> LiveOk({b})
    {
      hide AreasOk, PageOk, PagesOk, NoDup, PageBlocks, Pow2, IndexEmpty;
      if firstPage == [] {
        var p := AppendPage(true);
      }
      b := MallocInternal(Align(s), expand);
      if b != NULL && old(LiveOk({})) {
        AllocKeepsGraph(shells, old(mem), mem, old(Live()), b);
        assert Live() == old(Live()) + {b};
      }
    }

    /** The block at b is new, of s bytes, zeroed, with clear flags; nothing else has changed. */
    ghost predicate Allocated(mem0: Memory, big0: seq<int>, blocks0: set<int>, marked0: set<int>, pinned0: set<int>,
                              dead0: set<int>, b: int, s: nat)
      reads this
    {
      && b !in blocks0 && Blocks() == blocks0 + {b}
      && mem == mem0[b := Zeros(s / 8)] && (big == big0 || big == [b] + big0)
      && marked == marked0 - {b} && pinned == pinned0 - {b} && dead == dead0 - {b}
    }

    /** malloc_internal for a size that is a positive multiple of 8. */
    method MallocInternal(s: nat, expand: bool) returns (b: int)
      requires Valid() && firstPage != [] && s % 8 == 0 && 8 <= s
      modifies this
      ensures Valid() && unchanged(`shells, `roots)
      ensures b == NULL <==> !expand && s <= BIG_BLOCK_THRESHOLD && !old(RoomFor(s)) && old(pool) == []
      ensures b == NULL ==> unchanged(this)
      ensures b != NULL ==> Allocated(old(mem), old(big), old(Blocks()), old(marked), old(pinned), old(dead), b, s)
      ensures b != NULL ==> big == if s > BIG_BLOCK_THRESHOLD then [b] + old(big) else old(big)
      ensures s > BIG_BLOCK_THRESHOLD ==> unchanged(`firstPage, `lastPage, `pool)
      ensures b != NULL && s <= BIG_BLOCK_THRESHOLD && old(RoomFor(s)) ==>
              unchanged(`firstPage, `lastPage, `pool) && b == old(hdr)[lastPage].free
      ensures b != NULL && s <= BIG_BLOCK_THRESHOLD && !old(RoomFor(s)) ==>
              firstPage == old(firstPage) + [lastPage] && b == lastPage + PAGE_HEADER
              && PageTaken(old(pool), old(pagePerMap))
    {
      hide Heap.Valid, Heap.Allocated, Heap.RoomFor;
      if s > BIG_BLOCK_THRESHOLD {
        b := MallocBig(s);
      } else {
        b := MallocSmall(s, expand);
      }
    }

    method MallocSmall(s: nat, expand: bool) returns (b: int)
      requires Valid() && firstPage != [] && s % 8 == 0 && 8 <= s <= BIG_BLOCK_THRESHOLD
      modifies this
      ensures Valid() && unchanged(`shells, `roots, `big)
      ensures b == NULL <==> !expand && !old(RoomFor(s)) && old(pool) == []
      ensures b == NULL ==> unchanged(this)
      ensures b != NULL ==> Allocated(old(mem), old(big), old(Blocks()), old(marked), old(pinned), old(dead), b, s)
      ensures b != NULL && old(RoomFor(s)) ==> unchanged(`firstPage, `lastPage, `pool) && b == old(hdr)[lastPage].free
      ensures b != NULL && !old(RoomFor(s)) ==>
              firstPage == old(firstPage) + [lastPage] && b == lastPage + PAGE_HEADER
              && PageTaken(old(pool), old(pagePerMap))
    {
      hide AreasOk, PageOk, NoDup, PageBlocks, Pow2, IndexEmpty, Heap.Blocks, Heap.Valid, Heap.Supply;
      LastListed(this);
      if IsFull(lastPage, hdr[lastPage]) || hdr[lastPage].avail < s {
        b := AppendPage(expand);
        if b == NULL {
          return;
        }
      }
      b := CarveLast(s);
    }

    /** A block on the last page. */
    method CarveLast(s: nat) returns (b: int)
      requires Valid() && firstPage != [] && s % 8 == 0 && 8 <= s && RoomFor(s)
      modifies `mem, `hdr, `lay, `marked, `pinned, `dead
      ensures Valid() && b == old(hdr)[lastPage].free && b != NULL
      ensures Allocated(old(mem), old(big), old(Blocks()), old(marked), old(pinned), old(dead), b, s)
    {
      hide AreasOk, PageOk, NoDup, PageBlocks, Pow2, IndexEmpty;
      b := MallocInPage(s, lastPage, firstPage);
      FilledBlocks(old(lay), lay, firstPage, lastPage, b);
    }

    /** The refill step of malloc_internal: a new, empty last page. */
    method AppendPage(expand: bool) returns (p: int)
      requires Valid()
      modifies `pool, `brk, `freePages, `totalPages, `pagePerMap, `expansions, `hdr, `lay, `firstPage, `lastPage
      ensures Valid()
      ensures p == NULL <==> old(pool) == [] && !expand
      ensures p == NULL ==> unchanged(this)
      ensures p != NULL ==>
              firstPage == old(firstPage) + [p] && Blocks() == old(Blocks())
              && RoomFor(BIG_BLOCK_THRESHOLD)
      ensures p != NULL ==> lastPage == p && hdr[p].free == p + PAGE_HEADER && PageTaken(old(pool), old(pagePerMap))
    {
      hide AreasOk, PageOk, NoDup, PageBlocks, Pow2, IndexEmpty;
      p := RequestNewPage(expand, firstPage);
      if p != NULL {
        OpenedBlocks(old(lay), lay, firstPage, p);
        firstPage := firstPage + [p];
        lastPage := p;
      }
    }

    method MallocBig(s: nat) returns (b: int)
      requires Valid() && s % 8 == 0 && 8 <= s
      modifies `mem, `big, `brk, `marked, `pinned, `dead
      ensures Valid() && b != NULL && big == [b] + old(big)
      ensures Allocated(old(mem), old(big), old(Blocks()), old(marked), old(pinned), old(dead), b, s)
    {
      hide AreasOk, PageOk, PagesOk, NoDup, PageBlocks, Pow2, IndexEmpty, Elems;
      b := brk + 8;
      var mem' := mem[b := Zeros(s / 8)];
      AddBig(mem, mem', hdr, lay, firstPage, pool, big, brk);
      mem := mem';
      big := [b] + big;
      brk := NextBlock(mem, b);
      marked, pinned, dead := marked - {b}, pinned - {b}, dead - {b};
      assert Blocks() == old(Blocks()) + {b};
      assert Supply(firstPage);
    }
  }

  /** The last page can take s bytes exactly if they fit, with their size word, before its end. */
  lemma RoomExactly(h: Heap, s: int)
    requires h.Valid() && h.firstPage != [] && s >= 8 && s % 8 == 0
    ensures h.lastPage in h.hdr && (h.RoomFor(s) <==> h.hdr[h.lastPage].free + BLOCK + s <= h.lastPage + PAGE)
  {
    hide AreasOk, NoDup;
    var p := h.lastPage;
    assert p in h.firstPage && PageOk(h.mem, p, h.hdr[p], h.lay[p]);
  }

  lemma LastListed(h: Heap)
    requires h.Valid() && h.firstPage != []
    ensures h.lastPage in h.firstPage && h.lastPage in h.hdr
  {
  }

  /** The first free page becomes a page in use, with no block. */
  lemma NewPage(mem: Memory, hdr: Headers, lay: Layout, used: seq<int>, pool: seq<int>, big: seq<int>, brk: int)
    requires NoDup(used + pool) && AreasOk(mem, Elems(used + pool), big, brk) && PagesOk(mem, hdr, lay, used)
             && pool != []
    ensures var p := pool[0];
      && NoDup(used + [p] + pool[1..]) && Elems(used + [p] + pool[1..]) == Elems(used + pool) && p !in used && p != NULL
      && PagesOk(mem, hdr[p := PageHeader(p + PAGE_HEADER, FRESH_AVAIL)], lay[p := []], used + [p])
      && pool == [p] + pool[1..]
  {
    var p := pool[0];
    assert used + [p] + pool[1..] == used + pool;
    NoDupJoin(used, pool);
    assert p in Elems(pool) && p in Elems(used + pool);
    assert forall q :: q in used ==> q in Elems(used);
    hide NoDup, Elems;
    forall q | q in used
      ensures q != p
    {
    }
  }

  /** A page mapped at brk is disjoint from everything mapped before. */
  lemma AddArea(mem: Memory, used: seq<int>, pool: seq<int>, big: seq<int>, brk: int)
    requires NoDup(used + pool) && AreasOk(mem, Elems(used + pool), big, brk)
    ensures NoDup(used + ([brk] + pool)) && AreasOk(mem, Elems(used + ([brk] + pool)), big, brk + PAGE)
  {
    var s, t := used + pool, used + ([brk] + pool);
    assert Elems(t) == Elems(s) + {brk};
    assert forall i :: 0 <= i < |s| ==> s[i] in Elems(s) && s[i] != brk;
    forall i, j | 0 <= i < j < |t|
      ensures t[i] != t[j]
    {
      var i', j' := if i < |used| then i else i - 1, if j < |used| then j else j - 1;
      if i == |used| {
        assert t[j] == s[j'];
      } else if j == |used| {
        assert t[i] == s[i'];
      } else {
        assert t[i] == s[i'] && t[j] == s[j'];
      }
    }
    forall b, p | b in big && p in Elems(t)
      ensures OutsidePage(mem, b, p)
    {
      if p in Elems(s) { assert OutsidePage(mem, b, p); }
    }
  }

  /** Carving s bytes off page p disturbs nothing that is mapped. */
  lemma CarveSupply(mem: Memory, hdr: Headers, lay: Layout, used: seq<int>, pool: seq<int>, big: seq<int>, brk: int,
                    p: int, s: nat, h': PageHeader)
    requires AreasOk(mem, Elems(used + pool), big, brk) && PagesOk(mem, hdr, lay, used) && p in used
    requires s % 8 == 0 && 8 <= s && !IsFull(p, hdr[p]) && s <= hdr[p].avail && h'.free == hdr[p].free + s + BLOCK
    requires !IsFull(p, h') ==> h'.avail == hdr[p].avail - s - BLOCK
    ensures var b := hdr[p].free;
      && p in lay && b != NULL && b !in PageBlocks(lay, used) && b !in big
      && PagesOk(mem[b := Zeros(s / 8)], hdr[p := h'], lay[p := lay[p] + [b]], used)
      && AreasOk(mem[b := Zeros(s / 8)], Elems(used + pool), big, brk)
      && (!IsFull(p, h') ==> h'.avail >= 8 && h'.avail % 8 == 0)
  {
    Mapped(mem, hdr, lay, used, p);
    ElemsJoin(used, pool);
    hide AreasOk, PageOk, PagesOk, PageBlocks, Elems;
    var b := hdr[p].free;
    FreeBlockIsNew(mem, hdr, lay, used, Elems(used + pool), big, brk, p);
    var mem' := mem[b := Zeros(s / 8)];
    FillPage(mem, mem', hdr, lay, used, p, h');
    BigMapped(mem, Elems(used + pool), big, brk);
    AreasOkFrame(mem, mem', Elems(used + pool), big, brk);
  }

  /** Carving on one page leaves that page and all others in shape. */
  lemma FillPage(mem: Memory, mem': Memory, hdr: Headers, lay: Layout, used: seq<int>, p: int, h': PageHeader)
    requires PagesOk(mem, hdr, lay, used) && p in used
    requires var b := hdr[p].free;
             && !IsFull(p, hdr[p]) && b !in PageBlocks(lay, used)
             && b in mem' && mem' == mem[b := mem'[b]]
             && 1 <= |mem'[b]| && 8 * |mem'[b]| <= hdr[p].avail
             && h'.free == NextBlock(mem', b)
             && (!IsFull(p, h') ==> h'.avail == hdr[p].avail - 8 * |mem'[b]| - BLOCK)
    ensures PagesOk(mem', hdr[p := h'], lay[p := lay[p] + [hdr[p].free]], used)
    ensures !IsFull(p, h') ==> h'.avail >= 8 && h'.avail % 8 == 0
  {
    var b := hdr[p].free;
    forall q, x | q in used && x in lay[q]
      ensures x != b && x in mem' && mem'[x] == mem[x]
    {
      assert x in PageBlocks(lay, used);
      BlockInPage(mem, q, hdr[q], lay[q], x);
    }
    Carve(mem, mem', p, hdr[p], lay[p], h');
    forall q | q in used && q != p
      ensures PageOk(mem', q, hdr[q], lay[q])
    {
      PageOkFrame(mem, mem', q, hdr[q], lay[q]);
    }
  }

  /** A big block mapped at brk is disjoint from everything mapped before. */
  lemma AddBig(mem: Memory, mem': Memory, hdr: Headers, lay: Layout, used: seq<int>, pool: seq<int>, big: seq<int>,
               brk: int)
    requires AreasOk(mem, Elems(used + pool), big, brk) && PagesOk(mem, hdr, lay, used)
    requires var b := brk + 8; b in mem' && mem' == mem[b := mem'[b]] && |mem'[b]| >= 1
    ensures var b := brk + 8;
            && AreasOk(mem', Elems(used + pool), [b] + big, NextBlock(mem', b)) && b !in PageBlocks(lay, used)
              && b !in Elems(big)
            && Elems([b] + big) == Elems(big) + {b} && b != NULL
    ensures PagesOk(mem', hdr, lay, used)
  {
    var b, ps := brk + 8, Elems(used + pool);
    ElemsJoin(used, pool);
    ElemsJoin([b], big);
    forall q, x | q in used && x in lay[q]
      ensures x != b && x in mem' && mem'[x] == mem[x]
    {
      assert q in Elems(used);
      BlockInPage(mem, q, hdr[q], lay[q], x);
    }
    PagesOkFrame(mem, mem', hdr, lay, used);
    AreasOkFrame(mem, mem', ps, big, brk);
    Multiples(brk, 2 + |mem'[b]|);
    AddBigArea(mem', ps, big, brk);
  }

  lemma AddBigArea(mem: Memory, ps: set<int>, big: seq<int>, brk: int)
    requires AreasOk(mem, ps, big, brk)
    requires brk + 8 in mem && |mem[brk + 8]| >= 1 && NextBlock(mem, brk + 8) % 8 == 0
    ensures AreasOk(mem, ps, [brk + 8] + big, NextBlock(mem, brk + 8))
  {
  }

  /** A block that no object points to yet does not disturb the graph. */
  lemma AllocKeepsGraph(shells: Shells, mem: Memory, mem': Memory, u: set<int>, b: int)
    requires Graph(shells, mem, u, {}) && b !in u && b in mem' && mem' == mem[b := mem'[b]]
    ensures Graph(shells, mem', u + {b}, {b})
  {
  }
}
