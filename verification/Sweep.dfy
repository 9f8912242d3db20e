/** sweep() as a whole: its passes put together, and what the heap is afterwards. */
module Sweep {
  import opened Lists
  import opened Objects
  import opened Pages
  import opened Heaps
  import opened SizeTable
  import opened SweepPinned
  import opened Evacuate
  import opened FixUp

  // ----- the state between the first and the second pass -----

  /** What sweep may rely on: the marked blocks are objects that point to marked blocks only, the
      roots point to them, and dead blocks are not marked. */
  ghost predicate MarksOk(shells: Shells, mem: Memory, roots: seq<seq<Word>>, blocks: set<int>, big: set<int>,
                          marked: set<int>, pinned: set<int>, dead: set<int>) {
    && Graph(shells, mem, marked * blocks, {})
    && RootsInto(roots, marked * blocks)
    && pinned * blocks <= marked
    && (marked * blocks) !! dead && dead !! big
  }

  /** The blocks that will be copied. */
  ghost function Movable(lay: Layout, marked: set<int>, pinned: set<int>, ps: seq<int>): set<int> {
    PageBlocks(lay, Keep(ps, Elems(ps) - PinnedPages(lay, pinned, ps))) * marked
  }

  /** How the pages have been sorted: what the second and third pass need to know. */
  ghost predicate Sorted(st: Start, survivors: set<int>) {
    var evac, stay, big := PageBlocks(st.lay, st.evac), PageBlocks(st.lay, st.stay), Elems(st.big);
    && evac !! stay !! big
    && evac !! st.pinned && stay !! st.pinned && big !! st.pinned
    && stay !! st.marked && big !! st.marked
    && (evac * st.marked) !! st.dead && big !! st.dead
    && survivors == (evac * st.marked) + (stay - st.dead) + big
    && (forall b :: b in st.Blocks() ==> b in st.mem && st.mem[b] != [])
  }

  lemma PinsOfPagesOnly(lay: Layout, pinned: set<int>, k: set<int>, ps: seq<int>)
    requires k !! PageBlocks(lay, ps)
    ensures PinnedPages(lay, pinned - k, ps) == PinnedPages(lay, pinned, ps)
  {
  }

  /** Sorting the page list into two leaves the same pages. */
  lemma SortPages(lay: Layout, list: seq<int>, pool: seq<int>, stay: set<int>)
    requires NoDup(list + pool) && stay <= Elems(list)
    ensures var evac, alive := Keep(list, Elems(list) - stay), Reverse(Keep(list, stay));
      && NoDup(evac + alive + pool) && NoDup(evac) && NoDup(alive) && Elems(evac + alive + pool) == Elems(list + pool)
      && (forall p :: p in evac + alive <==> p in list) && (forall p :: p in evac ==> p !in stay)
      && (forall p :: p in alive <==> p in stay)
      && |evac| + |alive| == |list|
  {
    hide NoDup, Keep, Reverse;
    var go := Elems(list) - stay;
    var evac, kept := Keep(list, go), Keep(list, stay);
    NoDupJoin(list, pool);
    Members(list, go);
    Members(list, stay);
    Members(kept, stay);
    NoDupSplit(list, go);
    NoDupSplit(list, stay);
    NoDupSplit(kept, stay);
    KeptElems(list, go);
    KeptElems(list, stay);
    ElemsReverse(kept);
    NoDupJoin(evac, Reverse(kept));
    ElemsJoin(evac, Reverse(kept));
    assert Elems(evac + Reverse(kept)) == Elems(list);
    ElemsJoin(list, pool);
    ElemsJoin(evac + Reverse(kept), pool);
    NoDupJoin(evac + Reverse(kept), pool);
    SplitLength(list, stay);
  }

  lemma {:induction false} SplitLength(list: seq<int>, stay: set<int>)
    ensures |Keep(list, Elems(list) - stay)| + |Keep(list, stay)| == |list|
  {
    SplitLengthIn(list, Elems(list), stay);
  }

  lemma {:induction false} SplitLengthIn(list: seq<int>, all: set<int>, stay: set<int>)
    requires Elems(list) <= all
    ensures |Keep(list, all - stay)| + |Keep(list, stay)| == |list|
  {
    if list != [] {
      assert list[|list| - 1] in Elems(list);
      assert forall x :: x in list[..|list| - 1] ==> x in Elems(list);
      SplitLengthIn(list[..|list| - 1], all, stay);
    }
  }

  /** The state that the first part of sweep leaves. */
  ghost function AfterFirstPass(mem: Memory, hdr: Headers, lay: Layout, list: seq<int>, big: seq<int>, marked: set<int>,
                                pinned: set<int>, dead: set<int>): Start {
    var kept := Keep(big, marked + pinned);
    var marked1, pinned1 := marked - Elems(kept), pinned - Elems(kept);
    var pages := PinnedPages(lay, pinned1, list);
    var stay := Reverse(Keep(list, pages));
    var settled := PageBlocks(lay, stay);
    Start(mem, hdr, lay, marked1 - settled, pinned1 - settled, dead + (settled - marked1 - pinned1),
          Keep(list, Elems(list) - pages), stay, kept)
  }

  /** Blocks of the pages that stay and of those that go, once the list has been sorted. */
  lemma SortBlocks(lay: Layout, list: seq<int>, evac: seq<int>, alive: seq<int>)
    requires DisjointPages(lay, list)
    requires (forall p :: p in evac + alive <==> p in list) && (forall p :: p in evac ==> p !in alive)
    ensures PageBlocks(lay, evac) !! PageBlocks(lay, alive)
    ensures PageBlocks(lay, evac) + PageBlocks(lay, alive) == PageBlocks(lay, list)
  {
    forall b | b in PageBlocks(lay, evac)
      ensures b !in PageBlocks(lay, alive)
    {
      var p :| p in evac && p in lay && b in lay[p];
      assert p in evac + alive && b in Elems(lay[p]);
      forall q | q in alive && q in lay
        ensures b !in lay[q]
      {
        assert q in evac + alive && b !in Elems(lay[q]);
      }
    }
    SamePageSet(lay, evac + alive, list);
    BlocksJoin(lay, evac, alive);
  }

  lemma SamePageSet(lay: Layout, ps: seq<int>, qs: seq<int>)
    requires forall p :: p in ps <==> p in qs
    ensures PageBlocks(lay, ps) == PageBlocks(lay, qs)
  {
  }

  /** Pages that go hold no pinned block. */
  lemma NoPinsLeave(lay: Layout, pinned: set<int>, list: seq<int>, evac: seq<int>)
    requires forall p :: p in evac ==> p in list && p !in PinnedPages(lay, pinned, list)
    ensures PageBlocks(lay, evac) !! pinned
  {
  }

  /** The set algebra of the first pass: e goes, s stays, b is what is left of the big blocks. */
  lemma SettleSets(e: set<int>, s: set<int>, big: set<int>, b: set<int>, marked: set<int>, pinned: set<int>,
                   dead: set<int>)
    requires e !! s && (e + s) !! big && b == big * (marked + pinned) && e !! pinned
    requires var blocks := e + s + big; pinned * blocks <= marked && (marked * blocks) !! dead && dead !! big
    ensures var marked', pinned', dead' := marked - b - s, pinned - b - s, dead + (s - (marked - b) - (pinned - b));
      && e !! s !! b && e !! pinned' && s !! pinned' && b !! pinned' && s !! marked' && b !! marked'
      && (e * marked') !! dead' && b !! dead' && e * marked' == e * marked
      && marked * (e + s + big) == (e * marked') + (s - dead') + b
  {
  }

  lemma FirstPassSorts(mem: Memory, hdr: Headers, lay: Layout, list: seq<int>, pool: seq<int>, big: seq<int>, brk: int,
                       marked: set<int>, pinned: set<int>, dead: set<int>)
    requires NoDup(list + pool) && PagesOk(mem, hdr, lay, list) && AreasOk(mem, Elems(list + pool), big, brk)
    requires var blocks := PageBlocks(lay, list) + Elems(big);
             pinned * blocks <= marked && (marked * blocks) !! dead
             && dead !! Elems(big)
    ensures var st := AfterFirstPass(mem, hdr, lay, list, big, marked, pinned, dead);
      && Sorted(st, marked * (PageBlocks(lay, list) + Elems(big)))
      && NoDup(st.evac + st.stay + pool) && NoDup(st.evac) && Elems(st.evac + st.stay + pool) == Elems(list + pool)
      && PagesOk(mem, hdr, lay, st.evac + st.stay) && DisjointPages(lay, st.evac) && |st.evac| + |st.stay| == |list|
      && AreasOk(mem, Elems(list + pool), st.big, brk)
      && PageBlocks(lay, st.evac) * st.marked == Movable(lay, marked, pinned, list)
      && PageBlocks(lay, st.evac) + PageBlocks(lay, st.stay) == PageBlocks(lay, list) && Elems(st.big) <= Elems(big)
  {
    hide PageBlocks, AreasOk, PageOk, NoDup, Keep, Reverse, PageHasPin;
    var st := AfterFirstPass(mem, hdr, lay, list, big, marked, pinned, dead);
    var pages := PinnedPages(lay, pinned - Elems(st.big), list);
    SupplyDisjoint(mem, hdr, lay, list, Elems(list + pool), big, brk);
    KeptElems(big, marked + pinned);
    PinsOfPagesOnly(lay, pinned, Elems(st.big), list);
    SortPages(lay, list, pool, pages);
    SortBlocks(lay, list, st.evac, st.stay);
    NoPinsLeave(lay, pinned, list, st.evac);
    SettleSets(PageBlocks(lay, st.evac), PageBlocks(lay, st.stay), Elems(big), Elems(st.big), marked, pinned, dead);
    AreasOkKeep(mem, Elems(list + pool), big, brk, marked + pinned);
    BigMapped(mem, Elems(list + pool), big, brk);
    forall b | b in PageBlocks(lay, list)
      ensures b in mem && mem[b] != []
    {
      BlockKnown(mem, hdr, lay, list, b);
    }
  }

  // ----- between the second and the third pass -----

  lemma ObjectPointsInto(shells: Shells, d: Payload, m: set<int>, u: set<int>)
    requires PayloadOk(shells, d) && Succ(shells, d) <= m && m <= u
    ensures FieldsInto(shells, d, u)
  {
  }

  /** Everything the third pass needs, from what the first two have established. */
  lemma ReadyToFix(shells: Shells, st: Start, m: set<int>, mem: Memory, lay: Layout, alive: seq<int>, marked: set<int>,
                   pinned: set<int>, dead: set<int>, moved: map<int, int>)
    requires Sorted(st, m) && Graph(shells, st.mem, m, {}) && MovesOk(st.mem, mem, st.Blocks(), moved)
    requires moved.Keys == PageBlocks(st.lay, st.evac) * st.marked
    requires PageBlocks(lay, alive) == PageBlocks(st.lay, st.stay) + Images(moved)
    requires marked == st.marked - Images(moved) && pinned == st.pinned - Images(moved)
             && dead == st.dead - Images(moved)
    ensures var u := m + Images(moved);
      && moved.Keys <= u && Forwarding(mem, marked, moved, u)
      && ObjectsInto(shells, mem, PageBlocks(lay, alive) - dead, u)
      && PageBlocks(lay, alive) !! moved.Keys && PageBlocks(lay, alive) !! marked && PageBlocks(lay, alive) !! pinned
  {
    hide PageBlocks, Elems, PayloadOk, Succ, FieldsInto;
    var u := m + Images(moved);
    assert m <= st.Blocks();
    assert Images(moved) !! st.Blocks();
    forall b | b in PageBlocks(lay, alive) - dead
      ensures b in mem && FieldsInto(shells, mem[b], u)
    {
      var a := b;
      if b in Images(moved) { a := Origin(moved, b); }
      assert a in m;
      ObjectPointsInto(shells, st.mem[a], m, u);
    }
  }

  lemma Origin(moved: map<int, int>, c: int) returns (b: int)
    requires c in Images(moved)
    ensures b in moved && moved[b] == c
  {
    b :| b in moved && moved[b] == c;
  }

  // ----- what the heap is afterwards -----

  /** Where a surviving block is after the sweep. */
  function Relocate(moved: map<int, int>, b: int): int { if b in moved then moved[b] else b }

  ghost function Relocated(moved: map<int, int>, m: set<int>): set<int> { set b | b in m :: Relocate(moved, b) }

  /** The survivors m keep their identity: no two end at one address, and each has its payload, with
      every field redirected; the fields of a big block are left as they were. */
  ghost predicate Isomorphic(shells: Shells, mem0: Memory, mem: Memory, m: set<int>, big: set<int>,
                    moved: map<int, int>) {
    && (forall a, b :: a in m && b in m && a != b ==> Relocate(moved, a) != Relocate(moved, b))
    && forall b :: b in m ==>
         && b in mem0 && Relocate(moved, b) in mem
         && mem[Relocate(moved, b)] == if b in big then mem0[b] else Rewrite(shells, moved, mem0[b])
  }

  lemma SweptHeap(shells: Shells, st: Start, m: set<int>, mem: Memory, mem': Memory, lay: Layout, alive: seq<int>,
                  dead: set<int>, moved: map<int, int>)
    requires Sorted(st, m) && MovesOk(st.mem, mem, st.Blocks(), moved)
    requires moved.Keys == PageBlocks(st.lay, st.evac) * st.marked
    requires PageBlocks(lay, alive) == PageBlocks(st.lay, st.stay) + Images(moved) && dead == st.dead - Images(moved)
    requires Fixed(shells, moved, mem, mem', PageBlocks(lay, alive) - dead)
    ensures Isomorphic(shells, st.mem, mem', m, Elems(st.big), moved)
    ensures PageBlocks(lay, alive) + Elems(st.big) - dead == Relocated(moved, m)
    ensures dead !! Elems(st.big) && Images(moved) !! m
  {
    hide PageBlocks, Elems, Rewrite;
    var live := PageBlocks(lay, alive) - dead;
    assert m <= st.Blocks() && Images(moved) !! st.Blocks();
    forall b | b in m
      ensures b in st.mem && Relocate(moved, b) in mem' && Relocate(moved, b) in live + Elems(st.big)
      ensures mem'[Relocate(moved, b)] == if b in Elems(st.big) then st.mem[b] else Rewrite(shells, moved, st.mem[b])
    {
      if b in moved {
        assert moved[b] in Images(moved) && moved[b] in mem;
      } else {
        assert b in mem;
      }
    }
    forall x | x in live + Elems(st.big)
      ensures x in Relocated(moved, m)
    {
      if x in Images(moved) {
        var a := Origin(moved, x);
        assert a in m && Relocate(moved, a) == x;
      } else {
        assert x in m && Relocate(moved, x) == x;
      }
    }
  }

  // ----- the passes, put together -----

  method FirstPass(h: Heap) returns (alive: seq<int>, ghost st: Start)
    requires h.Supply(h.firstPage) && h.freeBlocks.Length == SIZE_TABLE && IndexEmpty(h.freeBlocks[..])
    requires MarksOk(h.shells, h.mem, h.roots, h.Blocks(), Elems(h.big), h.marked, h.pinned, h.dead)
    modifies h`big, h`firstPage, h`lastPage, h`marked, h`pinned, h`dead, h`maxFreeBlock, h.freeBlocks
    ensures st == AfterFirstPass(h.mem, h.hdr, h.lay, old(h.firstPage), old(h.big), old(h.marked), old(h.pinned),
            old(h.dead))
    ensures EvacInv(h, st, alive, map[], []) && alive == st.stay && h.firstPage == st.evac
    ensures Sorted(st, old(h.marked * h.Blocks()))
    ensures DisjointPages(st.lay, st.evac) && NoDup(st.evac)
    ensures PageBlocks(st.lay, st.evac) * st.marked == Movable(h.lay, old(h.marked), old(h.pinned), old(h.firstPage))
  {
    hide PageBlocks, AreasOk, PagesOk, PageOk, NoDup, Keep, Reverse, PinnedPages, Sorted, DisjointPages, IndexOk,
         IndexEmpty, Graph, RootsInto, Movable, Pow2;
    FirstPassSorts(h.mem, h.hdr, h.lay, h.firstPage, h.pool, h.big, h.brk, h.marked, h.pinned, h.dead);
    ListParts(h.firstPage, h.pool);
    SupplyDisjoint(h.mem, h.hdr, h.lay, h.firstPage, Elems(h.firstPage + h.pool), h.big, h.brk);
    st := AfterFirstPass(h.mem, h.hdr, h.lay, h.firstPage, h.big, h.marked, h.pinned, h.dead);
    SweepBigBlocks(h);
    alive := SeparatePinned(h);
    NothingMoved(h, st, old(h.marked * h.Blocks()));
  }

  lemma ListParts(list: seq<int>, pool: seq<int>)
    requires NoDup(list + pool)
    ensures NoDup(list) && Elems(list) <= Elems(list + pool)
  {
    NoDupJoin(list, pool);
  }

  lemma NothingMoved(h: Heap, st: Start, m: set<int>)
    requires h.Supply(st.evac + st.stay) && h.firstPage == st.evac && h.big == st.big
    requires h.lastPage == (if st.stay == [] then NULL else st.stay[|st.stay| - 1])
    requires h.freeBlocks.Length == SIZE_TABLE && IndexOk(h.freeBlocks[..], h.maxFreeBlock, Elems(st.stay), h.hdr)
    requires st.mem == h.mem && st.hdr == h.hdr && st.lay == h.lay && st.marked == h.marked && st.pinned == h.pinned
    requires st.dead == h.dead
    requires Sorted(st, m)
    ensures EvacInv(h, st, st.stay, map[], [])
  {
    hide AreasOk, PageOk, PagesOk, NoDup, Pow2, IndexOk, MovesOk, SpaceOk, SamePages, PageBlocks, Sorted, Images, Elems;
    assert st.stay[|st.stay|..] == [];
    NoMoves(st, m);
    NoSpace(st.mem, h.hdr);
    KeptPages(st, h.mem);
    assert PageBlocks(h.lay, st.stay) == PageBlocks(st.lay, st.stay) + Images(map[]);
  }

  lemma NoMoves(st: Start, m: set<int>)
    requires Sorted(st, m)
    ensures MovesOk(st.mem, st.mem, st.Blocks(), map[]) && Images(map[]) == {}
  {
  }

  lemma NoSpace(mem: Memory, hdr: Headers)
    ensures SpaceOk(hdr, [], SizeSum(mem, [])) && NoDup([]) && Elems([]) == {}
  {
  }

  lemma KeptPages(st: Start, mem: Memory)
    requires PagesOk(mem, st.hdr, st.lay, st.evac + st.stay)
    ensures SamePages(st, st.hdr, st.lay)
  {
  }

  /** The third pass: surviving objects on pages, then the roots. */
  method ThirdPass(h: Heap, alive: seq<int>, ghost st: Start, ghost m: set<int>, ghost moved: map<int, int>,
                   ghost order: seq<int>)
    requires EvacInv(h, st, alive, moved, order)
    requires Sorted(st, m) && Graph(h.shells, st.mem, m, {}) && RootsInto(h.roots, m)
    requires moved.Keys == PageBlocks(st.lay, st.evac) * st.marked
    modifies h`mem, h`roots
    ensures h.Supply(h.firstPage + alive)
    ensures Fixed(h.shells, moved, old(h.mem), h.mem, PageBlocks(h.lay, alive) - h.dead)
    ensures h.roots == ForwardAll(moved, old(h.roots))
  {
    hide PageBlocks, AreasOk, PageOk, PagesOk, NoDup, Sorted, DisjointPages, IndexOk, Graph, RootsInto, Movable, Pow2,
         Fixed, Forwarding, MovesOk, SpaceOk, SamePages, ForwardAll;
    ReadyToFix(h.shells, st, m, h.mem, h.lay, alive, h.marked, h.pinned, h.dead, moved);
    AliveParts(h.mem, h.hdr, h.lay, h.firstPage, alive, h.pool, h.big, h.brk);
    ghost var u := m + Images(moved);
    RootsWider(h.roots, m, u);
    FixAlive(h, alive, moved, u);
    FixedLengths(h.shells, moved, old(h.mem), h.mem, PageBlocks(h.lay, alive) - h.dead);
    SameLengths(old(h.mem), h.mem, h.hdr, h.lay, h.firstPage + alive, Elems(h.firstPage + alive + h.pool), h.big,
      h.brk);
    StillForwarding(h.shells, moved, old(h.mem), h.mem, h.marked, u, PageBlocks(h.lay, alive) - h.dead);
    FixRoots(h, moved, u);
  }

  lemma AliveParts(mem: Memory, hdr: Headers, lay: Layout, evac: seq<int>, alive: seq<int>, pool: seq<int>,
                   big: seq<int>, brk: int)
    requires NoDup(evac + alive + pool) && PagesOk(mem, hdr, lay, evac + alive)
    requires AreasOk(mem, Elems(evac + alive + pool), big, brk)
    ensures PagesOk(mem, hdr, lay, alive) && NoDup(alive) && DisjointPages(lay, alive)
  {
    NoDupJoin(evac + alive, pool);
    NoDupJoin(evac, alive);
    PagesPart(mem, hdr, lay, evac, alive);
    assert forall p :: p in alive ==> p in evac + alive + pool;
    SupplyDisjoint(mem, hdr, lay, alive, Elems(evac + alive + pool), big, brk);
  }

  lemma RootsWider(roots: seq<seq<Word>>, m: set<int>, u: set<int>)
    requires RootsInto(roots, m) && m <= u
    ensures RootsInto(roots, u)
  {
  }

  lemma FixedLengths(shells: Shells, moved: map<int, int>, mem0: Memory, mem: Memory, done: set<int>)
    requires Fixed(shells, moved, mem0, mem, done)
    ensures forall b :: b in mem0 ==> b in mem && |mem[b]| == |mem0[b]|
  {
  }

  lemma StillForwarding(shells: Shells, moved: map<int, int>, mem0: Memory, mem: Memory, marked: set<int>, u: set<int>,
                        done: set<int>)
    requires Forwarding(mem0, marked, moved, u) && Fixed(shells, moved, mem0, mem, done) && done !! moved.Keys
    ensures Forwarding(mem, marked, moved, u)
  {
  }

  /** The pages that were left go to the free list, the alive pages become the page list. */
  method Recycle(h: Heap, alive: seq<int>)
    requires h.Supply(h.firstPage + alive)
    modifies h`pool, h`freePages, h`firstPage
    ensures h.Supply(alive) && h.firstPage == alive
    ensures h.pool == Reverse(old(h.firstPage)) + old(h.pool)
  {
    hide AreasOk, PageOk, PagesOk, Pow2, Reverse, NoDup;
    ghost var list, pool, i := h.firstPage, h.pool, 0;
    PagesPart(h.mem, h.hdr, h.lay, list, alive);
    KeepNone({});
    assert list[..0] == [] && list[0..] == list && Reverse(list[..0]) + pool == pool;
    while h.firstPage != []
      invariant 0 <= i <= |list| && h.firstPage == list[i..]
      invariant h.pool == Reverse(list[..i]) + pool && h.freePages == |h.pool|
      invariant h.totalPages == old(h.totalPages) && h.brk == old(h.brk)
      decreases |list| - i
    {
      var p := h.firstPage[0];
      StepPrefix(list, {}, i);
      h.pool := [p] + h.pool;
      h.firstPage := h.firstPage[1..];
      h.freePages := h.freePages + 1;
      i := i + 1;
    }
    assert list[..i] == list;
    RecycledPages(list, alive, pool);
    h.firstPage := alive;
  }

  lemma RecycledPages(list: seq<int>, alive: seq<int>, pool: seq<int>)
    requires NoDup(list + alive + pool)
    ensures NoDup(alive + (Reverse(list) + pool)) && Elems(alive + (Reverse(list) + pool)) == Elems(list + alive + pool)
    ensures |Reverse(list)| == |list|
  {
    hide NoDup, Elems, Reverse;
    NoDupJoin(list + alive, pool);
    NoDupJoin(list, alive);
    NoDupSplit(list, {});
    Members(list, {});
    ElemsReverse(list);
    ElemsJoin(list, alive);
    ElemsJoin(list + alive, pool);
    ElemsJoin(Reverse(list), pool);
    ElemsJoin(alive, Reverse(list) + pool);
    NoDupJoin(Reverse(list), pool);
    NoDupJoin(alive, Reverse(list) + pool);
  }

  /** `order` lists the copied blocks; the pages opened for them, if more than one, have less than
      twice the capacity that the copies take. */
  ghost predicate ToSpaceOk(mem0: Memory, moved: map<int, int>, order: seq<int>, added: seq<int>) {
    && NoDup(order) && Elems(order) == moved.Keys
    && (|added| >= 2 ==> |added| * CAPACITY < 2 * SizeSum(mem0, order))
  }

  /** The second and the third pass. */
  method MoveAndFix(h: Heap, alive: seq<int>, ghost st: Start, ghost m: set<int>)
    returns (alive': seq<int>, ghost moved: map<int, int>, ghost order: seq<int>)
    requires EvacInv(h, st, alive, map[], []) && alive == st.stay && h.firstPage == st.evac && Sorted(st, m)
    requires DisjointPages(st.lay, st.evac) && NoDup(st.evac) && Graph(h.shells, st.mem, m, {}) && RootsInto(h.roots, m)
    modifies h`pool, h`brk, h`freePages, h`totalPages, h`pagePerMap, h`expansions, h`hdr, h`lay, h`lastPage
    modifies h`mem, h`marked, h`pinned, h`dead, h`maxFreeBlock, h.freeBlocks, h`roots
    ensures h.Supply(h.firstPage + alive') && h.big == st.big && st.stay <= alive'
    ensures h.lastPage == (if alive' == [] then NULL else alive'[|alive'| - 1])
    ensures h.freeBlocks.Length == SIZE_TABLE && IndexOk(h.freeBlocks[..], h.maxFreeBlock, Elems(alive'), h.hdr)
    ensures moved.Keys == PageBlocks(st.lay, st.evac) * st.marked
    ensures PageBlocks(h.lay, alive') + Elems(h.big) - h.dead == Relocated(moved, m)
    ensures Isomorphic(h.shells, st.mem, h.mem, m, Elems(h.big), moved) && Images(moved) !! m
    ensures h.marked !! (PageBlocks(h.lay, alive') + Elems(h.big))
    ensures h.pinned !! (PageBlocks(h.lay, alive') + Elems(h.big)) && h.dead !! Elems(h.big)
    ensures h.roots == ForwardAll(moved, old(h.roots))
    ensures ToSpaceOk(st.mem, moved, order, alive'[|st.stay|..])
  {
    hide PageBlocks, AreasOk, PageOk, PagesOk, NoDup, Sorted, DisjointPages, IndexOk, IndexEmpty, Graph, RootsInto,
         Pow2, Fixed, Forwarding, MovesOk, SpaceOk, SamePages, ForwardAll, Isomorphic, Relocated, SizeSum, ToSpaceOk;
    SortedFacts(st, m);
    alive', moved, order := EvacuateAll(h, st, alive);
    ghost var mem2 := h.mem;
    ThirdPass(h, alive', st, m, moved, order);
    SweptHeap(h.shells, st, m, mem2, h.mem, h.lay, alive', h.dead, moved);
    EndSpace(h.hdr, st, alive', moved, order);
    EndFlags(st, m, h.lay, alive', h.marked, h.pinned, moved);
  }

  /** sweep. The survivors are the marked blocks; `moved` is where the blocks went that had to go. */
  method SweepHeap(h: Heap) returns (ghost moved: map<int, int>, ghost order: seq<int>)
    requires h.Supply(h.firstPage) && h.freeBlocks.Length == SIZE_TABLE && IndexEmpty(h.freeBlocks[..])
    requires MarksOk(h.shells, h.mem, h.roots, h.Blocks(), Elems(h.big), h.marked, h.pinned, h.dead)
    modifies h, h.freeBlocks
    ensures h.Valid() && h.shells == old(h.shells)
    ensures moved.Keys == old(Movable(h.lay, h.marked, h.pinned, h.firstPage))
    ensures h.Live() == Relocated(moved, old(h.marked * h.Blocks())) && Images(moved) !! old(h.marked * h.Blocks())
    ensures Isomorphic(h.shells, old(h.mem), h.mem, old(h.marked * h.Blocks()), Elems(h.big), moved)
    ensures h.big == Keep(old(h.big), old(h.marked + h.pinned))
    ensures h.roots == ForwardAll(moved, old(h.roots)) && RootsFollow(moved, old(h.roots), h.roots)
    ensures var stay := Reverse(Keep(old(h.firstPage),
            PinnedPages(old(h.lay), old(h.pinned) - Elems(h.big), old(h.firstPage))));
            stay <= h.firstPage && ToSpaceOk(old(h.mem), moved, order, h.firstPage[|stay|..])
  {
    hide PageBlocks, AreasOk, PageOk, PagesOk, NoDup, Sorted, DisjointPages, IndexOk, IndexEmpty, Graph, RootsInto,
         Movable, Pow2, ForwardAll, PinnedPages, Keep, Reverse, Isomorphic, Relocated, ToSpaceOk, EvacInv, Heap.Supply,
         Images;
    ghost var m := h.marked * h.Blocks();
    var alive;
    ghost var st;
    alive, st := FirstPass(h);
    alive, moved, order := MoveAndFix(h, alive, st, m);
    AllFollow(moved, old(h.roots));
    Recycle(h, alive);
    ClearIndex(h, Elems(alive));
  }

  lemma SortedFacts(st: Start, m: set<int>)
    requires Sorted(st, m)
    ensures PageBlocks(st.lay, st.evac) !! st.pinned && PageBlocks(st.lay, st.evac) * st.marked !! st.dead
  {
  }

  lemma EndSpace(hdr: Headers, st: Start, alive: seq<int>, moved: map<int, int>, order: seq<int>)
    requires st.stay <= alive && SpaceOk(hdr, alive[|st.stay|..], SizeSum(st.mem, order))
    requires NoDup(order) && Elems(order) == moved.Keys
    ensures ToSpaceOk(st.mem, moved, order, alive[|st.stay|..])
  {
    if |alive[|st.stay|..]| >= 2 {
      ToSpaceBound(hdr, alive[|st.stay|..], SizeSum(st.mem, order));
    }
  }

  /** No surviving block keeps a mark or a pin. */
  lemma EndFlags(st: Start, m: set<int>, lay: Layout, alive: seq<int>, marked: set<int>, pinned: set<int>,
                 moved: map<int, int>)
    requires Sorted(st, m) && PageBlocks(lay, alive) == PageBlocks(st.lay, st.stay) + Images(moved)
    requires marked == st.marked - Images(moved) && pinned == st.pinned - Images(moved)
    ensures marked !! (PageBlocks(lay, alive) + Elems(st.big)) && pinned !! (PageBlocks(lay, alive) + Elems(st.big))
  {
  }
}
