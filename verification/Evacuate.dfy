/** The second part of sweep: the marked blocks of every page that does not stay are copied out,
    each to the page with the least sufficient room, and leave a forwarding pointer behind. */
module Evacuate {
  import opened Lists
  import opened Objects
  import opened Pages
  import opened Heaps
  import opened SizeTable

  /** The first half of copy_block: the page to copy s bytes to, taken off the size table. */
  method ChoosePage(h: Heap, s: int, ghost evac: seq<int>, alive: seq<int>) returns (alive': seq<int>, to: int)
    requires h.Supply(evac + alive) && alive != [] && h.lastPage == alive[|alive| - 1]
    requires 8 <= s <= BIG_BLOCK_THRESHOLD && s % 8 == 0
    requires h.freeBlocks.Length == SIZE_TABLE && IndexOk(h.freeBlocks[..], h.maxFreeBlock, Elems(alive), h.hdr)
    modifies h`pool, h`brk, h`freePages, h`totalPages, h`pagePerMap, h`expansions, h`hdr, h`lay, h`lastPage,
             h.freeBlocks
    ensures h.Supply(evac + alive') && alive' != [] && h.lastPage == alive'[|alive'| - 1]
    ensures to in alive' && HasRoom(h.hdr, to) && s <= h.hdr[to].avail && to !in evac
    ensures IndexOk(h.freeBlocks[..], h.maxFreeBlock, Elems(alive') - {to}, h.hdr)
    ensures to in alive ==>
            alive' == alive && h.hdr == old(h.hdr) && h.lay == old(h.lay)
            && Tightest(h.hdr, alive, s, to)
    ensures to !in alive ==> alive' == alive + [to] && NoneFits(old(h.hdr), alive, s)
    ensures to !in alive ==>
            h.hdr == old(h.hdr)[to := PageHeader(to + PAGE_HEADER, FRESH_AVAIL)]
            && h.lay == old(h.lay)[to := []]
  {
    hide AreasOk, PageOk, NoDup, PageBlocks, Pow2, IndexOk;
    UsedPages(h.mem, evac, alive, h.pool, h.big, h.brk);
    to := TakeTightest(h, s, Elems(alive));
    alive' := alive;
    if to == NULL {
      to := h.RequestNewPage(true, evac + alive);
      assert evac + alive + [to] == evac + (alive + [to]);
      alive' := alive + [to];
      h.lastPage := to;
      assert forall q :: q in alive ==> q in evac + alive;
      IndexFrame(h.freeBlocks[..], h.maxFreeBlock, Elems(alive), old(h.hdr), Elems(alive), h.hdr);
      assert Elems(alive') - {to} == Elems(alive);
    }
  }

  ghost predicate NoneFits(hdr: Headers, ps: seq<int>, s: int) {
    forall q :: q in ps && HasRoom(hdr, q) ==> hdr[q].avail < s
  }

  /** `to` fits s bytes, and no page of ps fits them more tightly. */
  ghost predicate Tightest(hdr: Headers, ps: seq<int>, s: int, to: int) {
    && HasRoom(hdr, to) && s <= hdr[to].avail
    && forall q :: q in ps && HasRoom(hdr, q) && s <= hdr[q].avail ==> hdr[to].avail <= hdr[q].avail
  }

  lemma UsedPages(mem: Memory, evac: seq<int>, alive: seq<int>, pool: seq<int>, big: seq<int>, brk: int)
    requires NoDup(evac + alive + pool) && AreasOk(mem, Elems(evac + alive + pool), big, brk)
    ensures NULL !in Elems(alive)
    ensures forall q :: q in alive ==> q !in evac
  {
    NoDupJoin(evac + alive, pool);
    NoDupJoin(evac, alive);
    var all := evac + alive + pool;
    assert forall q :: q in alive ==> q in Elems(all);
    assert forall q :: q in alive && q in evac ==> q in Elems(alive) && q in Elems(evac);
  }

  /** What copying block b to address c does to memory. */
  function Copied(mem: Memory, b: int, c: int): Memory
    requires b in mem && mem[b] != []
  {
    mem[c := mem[b]][b := mem[b][0 := Word(c + BLOCK, 0)]]
  }

  /** Writing payloads of the same length keeps every page and area in shape. */
  lemma SameLengths(mem: Memory, mem': Memory, hdr: Headers, lay: Layout, used: seq<int>, ps: set<int>, big: seq<int>,
                    brk: int)
    requires PagesOk(mem, hdr, lay, used) && AreasOk(mem, ps, big, brk)
    requires forall x :: x in mem ==> x in mem' && |mem'[x]| == |mem[x]|
    ensures PagesOk(mem', hdr, lay, used) && AreasOk(mem', ps, big, brk)
  {
    forall b | b in PageBlocks(lay, used)
      ensures b in mem
    {
      BlockKnown(mem, hdr, lay, used, b);
    }
    PagesOkFrame(mem, mem', hdr, lay, used);
    AreasOkFrame(mem, mem', ps, big, brk);
  }

  /** Allocate on the chosen page, copy the payload, and leave the forwarding pointer. */
  method CopyInto(h: Heap, b: int, to: int, ghost used: seq<int>) returns (c: int)
    requires h.Supply(used) && b in h.mem && h.mem[b] != [] && b in PageBlocks(h.lay, used)
    requires to in used && HasRoom(h.hdr, to) && 8 * |h.mem[b]| <= h.hdr[to].avail
    modifies h`mem, h`hdr, h`lay, h`marked, h`pinned, h`dead
    ensures h.Supply(used)
    ensures c !in old(PageBlocks(h.lay, used)) && c !in h.big
    ensures h.mem == Copied(old(h.mem), b, c)
    ensures h.lay == old(h.lay)[to := old(h.lay)[to] + [c]] && h.hdr == old(h.hdr)[to := h.hdr[to]]
    ensures h.hdr[to].free == old(h.hdr)[to].free + BLOCK + 8 * |old(h.mem)[b]|
    ensures !IsFull(to, h.hdr[to]) ==> 8 <= h.hdr[to].avail && h.hdr[to].avail % 8 == 0
    ensures h.marked == old(h.marked) - {c} && h.pinned == old(h.pinned) - {c} && h.dead == old(h.dead) - {c}
  {
    hide AreasOk, PageOk, PagesOk, NoDup, PageBlocks, Pow2;
    assert to in h.lay by { Mapped(h.mem, h.hdr, h.lay, used, to); }
    var s := 8 * |h.mem[b]|;
    c := h.MallocInPage(s, to, used);
    ghost var mem := h.mem;
    h.mem := h.mem[c := h.mem[b]];
    h.mem := h.mem[b := h.mem[b][0 := Word(c + BLOCK, 0)]];
    SameLengths(mem, h.mem, h.hdr, h.lay, used, Elems(used + h.pool), h.big, h.brk);
  }

  /** The second half of copy_block: copy, then list the page again if it still has room. */
  method FillCopy(h: Heap, b: int, to: int, ghost evac: seq<int>, ghost alive: seq<int>) returns (c: int)
    requires h.Supply(evac + alive) && b in h.mem && h.mem[b] != []
    requires to in alive && HasRoom(h.hdr, to) && 8 * |h.mem[b]| <= h.hdr[to].avail
    requires h.freeBlocks.Length == SIZE_TABLE && IndexOk(h.freeBlocks[..], h.maxFreeBlock, Elems(alive) - {to}, h.hdr)
    requires b in PageBlocks(h.lay, evac + alive)
    modifies h`mem, h`hdr, h`lay, h`marked, h`pinned, h`dead, h`maxFreeBlock, h.freeBlocks
    ensures h.Supply(evac + alive)
    ensures IndexOk(h.freeBlocks[..], h.maxFreeBlock, Elems(alive), h.hdr)
    ensures c !in old(PageBlocks(h.lay, evac + alive)) && c !in h.big
    ensures h.mem == Copied(old(h.mem), b, c)
    ensures to in old(h.lay) && h.lay == old(h.lay)[to := old(h.lay)[to] + [c]] && h.hdr == old(h.hdr)[to := h.hdr[to]]
    ensures h.hdr[to].free == old(h.hdr)[to].free + BLOCK + 8 * |old(h.mem)[b]|
    ensures h.marked == old(h.marked) - {c} && h.pinned == old(h.pinned) - {c} && h.dead == old(h.dead) - {c}
  {
    hide AreasOk, PageOk, NoDup, PageBlocks, Pow2, IndexOk, Copied;
    assert to in evac + alive;
    assert forall q :: q in alive ==> q in evac + alive;
    c := CopyInto(h, b, to, evac + alive);
    IndexFrame(h.freeBlocks[..], h.maxFreeBlock, Elems(alive) - {to}, old(h.hdr), Elems(alive) - {to}, h.hdr);
    Mapped(h.mem, h.hdr, h.lay, evac + alive, to);
    AddToIndex(h, to, Elems(alive) - {to});
    assert Elems(alive) - {to} + {to} == Elems(alive);
  }

  /** Bytes of page p taken by blocks and their headers. */
  function UsedBytes(hdr: Headers, p: int): int
    requires p in hdr
  {
    hdr[p].free - p - PAGE_HEADER
  }

  /** copy_block: the tightest listed page takes the copy; only if none fits is a new one added. */
  method CopyBlock(h: Heap, b: int, ghost evac: seq<int>, alive: seq<int>)
                   returns (alive': seq<int>, to: int, ghost c: int)
    requires h.Supply(evac + alive) && alive != [] && h.lastPage == alive[|alive| - 1]
    requires h.freeBlocks.Length == SIZE_TABLE && IndexOk(h.freeBlocks[..], h.maxFreeBlock, Elems(alive), h.hdr)
    requires b in PageBlocks(h.lay, evac) && b in h.mem && h.mem[b] != []
    modifies h`pool, h`brk, h`freePages, h`totalPages, h`pagePerMap, h`expansions, h`hdr, h`lay, h`lastPage
    modifies h`mem, h`marked, h`pinned, h`dead, h`maxFreeBlock, h.freeBlocks
    ensures h.Supply(evac + alive') && alive' != [] && h.lastPage == alive'[|alive'| - 1]
    ensures IndexOk(h.freeBlocks[..], h.maxFreeBlock, Elems(alive'), h.hdr)
    ensures to in alive' && to !in evac && to in h.hdr
    ensures c !in old(PageBlocks(h.lay, evac + alive)) && c !in h.big
    ensures h.mem == Copied(old(h.mem), b, c)
    ensures h.marked == old(h.marked) - {c} && h.pinned == old(h.pinned) - {c} && h.dead == old(h.dead) - {c}
    ensures h.hdr == old(h.hdr)[to := h.hdr[to]]
    ensures to in alive ==> alive' == alive && Tightest(old(h.hdr), alive, 8 * |old(h.mem)[b]|, to)
    ensures to in alive ==> to in old(h.lay) && h.lay == old(h.lay)[to := old(h.lay)[to] + [c]]
    ensures to in alive ==> UsedBytes(h.hdr, to) == UsedBytes(old(h.hdr), to) + BLOCK + 8 * |old(h.mem)[b]|
    ensures to !in alive ==> alive' == alive + [to] && NoneFits(old(h.hdr), alive, 8 * |old(h.mem)[b]|)
    ensures to !in alive ==> h.lay == old(h.lay)[to := [c]] && UsedBytes(h.hdr, to) == BLOCK + 8 * |old(h.mem)[b]|
  {
    hide AreasOk, PageOk, NoDup, PageBlocks, Pow2, IndexOk, Copied, NoneFits, Elems;
    assert forall q :: q in alive ==> q in evac + alive;
    BlockKnown(h.mem, h.hdr, h.lay, evac + alive, b) by { BlocksJoin(h.lay, evac, alive); }
    alive', to := ChoosePage(h, 8 * |h.mem[b]|, evac, alive);
    BlocksJoinOpened(old(h.lay), h.lay, evac, alive, alive', to);
    ghost var lay := h.lay;
    c := FillCopy(h, b, to, evac, alive');
    if to !in alive {
      assert lay[to] + [c] == [c];
      assert h.lay == old(h.lay)[to := [c]];
    }
  }

  lemma BlocksJoinOpened(lay: Layout, lay': Layout, evac: seq<int>, alive: seq<int>, alive': seq<int>, to: int)
    requires to in alive ==> alive' == alive && lay' == lay
    requires to !in alive ==> to !in evac && alive' == alive + [to] && lay' == lay[to := []]
    ensures PageBlocks(lay', evac + alive') == PageBlocks(lay, evac + alive)
    ensures PageBlocks(lay, evac) <= PageBlocks(lay, evac + alive)
  {
    BlocksJoin(lay, evac, alive);
    if to !in alive {
      assert evac + alive' == (evac + alive) + [to];
      OpenedBlocks(lay, lay', evac + alive, to);
    }
  }

  // ----- what evacuation has done so far -----

  /** The state in which evacuation starts: the pages that go, those that stay, and the blocks. */
  datatype Start = Start(mem: Memory, hdr: Headers, lay: Layout, marked: set<int>, pinned: set<int>, dead: set<int>,
                         evac: seq<int>, stay: seq<int>, big: seq<int>)
  {
    ghost function Blocks(): set<int> { PageBlocks(lay, evac) + PageBlocks(lay, stay) + Elems(big) }
  }

  /** `moved` sends each copied block to its copy: different blocks to different new addresses, the
      payload unchanged at the copy, and a forwarding pointer in the first word of the original. */
  ghost predicate MovesOk(mem0: Memory, mem: Memory, blocks: set<int>, moved: map<int, int>) {
    && moved.Keys <= blocks
    && (forall b :: b in moved ==> moved[b] !in blocks)
    && (forall a, b :: a in moved && b in moved && a != b ==> moved[a] != moved[b])
    && (forall b :: b in moved ==> b in mem0 && mem0[b] != [] && moved[b] in mem && mem[moved[b]] == mem0[b])
    && (forall b :: b in moved ==> b in mem && mem[b] == mem0[b][0 := Word(moved[b] + BLOCK, 0)])
    && (forall b :: b in blocks && b !in moved ==> b in mem0 && b in mem && mem[b] == mem0[b])
  }

  ghost function Images(m: map<int, int>): set<int> { set b | b in m :: m[b] }

  lemma ImagesAdd(m: map<int, int>, b: int, c: int)
    requires b !in m
    ensures Images(m[b := c]) == Images(m) + {c}
  {
    var m' := m[b := c];
    assert forall a :: a in m ==> a in m' && m'[a] == m[a];
    assert b in m' && m'[b] == c;
  }

  lemma MoveOne(mem0: Memory, mem: Memory, blocks: set<int>, moved: map<int, int>, b: int, c: int)
    requires MovesOk(mem0, mem, blocks, moved) && b in blocks && b !in moved && b in mem0 && mem0[b] != []
    requires c !in blocks && c !in Images(moved)
    ensures b in mem && mem[b] == mem0[b] && MovesOk(mem0, Copied(mem, b, c), blocks, moved[b := c])
  {
  }

  // ----- how much space the new pages take -----

  const CAPACITY: int := PAGE - PAGE_HEADER

  /** Bytes of the blocks in a list, headers included. */
  ghost function SizeSum(mem: Memory, bs: seq<int>): int {
    if bs == [] then 0
    else SizeSum(mem, bs[..|bs| - 1]) + (var b := bs[|bs| - 1]; if b in mem then BLOCK + 8 * |mem[b]| else 0)
  }

  ghost function UsedSum(hdr: Headers, ps: seq<int>): int {
    if ps == [] then 0
    else UsedSum(hdr, ps[..|ps| - 1]) + (var p := ps[|ps| - 1]; if p in hdr then UsedBytes(hdr, p) else 0)
  }

  /** Any two new pages hold more than one page can, and together the new pages hold no more than
      has been copied. */
  ghost predicate SpaceOk(hdr: Headers, added: seq<int>, copied: int) {
    && NoDup(added)
    && (forall p :: p in added ==> p in hdr && UsedBytes(hdr, p) >= 0)
    && (forall i, j :: 0 <= i < j < |added| ==> UsedBytes(hdr, added[i]) + UsedBytes(hdr, added[j]) > CAPACITY)
    && UsedSum(hdr, added) <= copied
  }

  lemma {:induction false} UsedSumFrame(hdr: Headers, hdr': Headers, ps: seq<int>, to: int, n: int)
    requires NoDup(ps) && to in hdr && to in hdr' && hdr' == hdr[to := hdr'[to]]
    requires UsedBytes(hdr', to) == UsedBytes(hdr, to) + n
    ensures UsedSum(hdr', ps) == UsedSum(hdr, ps) + (if to in ps then n else 0)
  {
    if ps != [] {
      var r, x := ps[..|ps| - 1], ps[|ps| - 1];
      assert ps == r + [x];
      NoDupJoin(r, [x]);
      UsedSumFrame(hdr, hdr', r, to, n);
      assert x in Elems([x]) && (to in r ==> to in Elems(r));
    }
  }

  /** Copying to a page that is already there. */
  lemma SpaceFilled(hdr: Headers, hdr': Headers, added: seq<int>, copied: int, to: int, n: int)
    requires SpaceOk(hdr, added, copied) && n >= 0
    requires to in hdr && to in hdr' && hdr' == hdr[to := hdr'[to]] && UsedBytes(hdr', to) == UsedBytes(hdr, to) + n
    ensures SpaceOk(hdr', added, copied + n)
  {
    UsedSumFrame(hdr, hdr', added, to, n);
    forall p | p in added
      ensures p in hdr' && UsedBytes(hdr', p) >= UsedBytes(hdr, p)
    {
      assert p in hdr;
    }
    assert forall i :: 0 <= i < |added| ==> added[i] in added;
  }

  /** Opening a page because no other had room, and copying to it. */
  lemma {:induction false} SpaceOpened(mem: Memory, hdr: Headers, hdr': Headers, lay: Layout, alive: seq<int>,
                                       added: seq<int>, copied: int, to: int, s: int)
    requires SpaceOk(hdr, added, copied) && PagesOk(mem, hdr, lay, alive) && NoneFits(hdr, alive, s) && s >= 8
    requires to !in alive && forall p :: p in added ==> p in alive
    requires to in hdr' && hdr' == hdr[to := hdr'[to]] && UsedBytes(hdr', to) == BLOCK + s
    ensures SpaceOk(hdr', added + [to], copied + BLOCK + s)
  {
    var added' := added + [to];
    assert to !in added;
    NoDupJoin(added, [to]);
    assert added'[..|added|] == added;
    UsedSumSame(hdr, hdr', added);
    forall i, j | 0 <= i < j < |added'|
      ensures UsedBytes(hdr', added'[i]) + UsedBytes(hdr', added'[j]) > CAPACITY
    {
      var p := added'[i];
      assert p == added[i] && p in added && p in alive;
      assert PageOk(mem, p, hdr[p], lay[p]);
      if j < |added| {
        assert added'[j] == added[j] && added[j] in added;
      } else {
        assert HasRoom(hdr, p) ==> hdr[p].avail < s;
      }
    }
  }

  lemma {:induction false} UsedSumSame(hdr: Headers, hdr': Headers, ps: seq<int>)
    requires forall p :: p in ps ==> p in hdr && p in hdr' && hdr'[p] == hdr[p]
    ensures UsedSum(hdr', ps) == UsedSum(hdr, ps)
  {
    if ps != [] {
      UsedSumSame(hdr, hdr', ps[..|ps| - 1]);
    }
  }

  lemma LastTwo(hdr: Headers, ps: seq<int>)
    requires |ps| >= 2 && forall p :: p in ps ==> p in hdr
    ensures var n := |ps|;
            UsedSum(hdr, ps) == UsedSum(hdr, ps[..n - 2]) + UsedBytes(hdr, ps[n - 2]) + UsedBytes(hdr, ps[n - 1])
  {
    var n := |ps|;
    var r := ps[..n - 1];
    assert r[..n - 2] == ps[..n - 2] && r[n - 2] == ps[n - 2];
  }

  /** Numbers of which any two exceed c: n >= 2 of them add up to more than n * c / 2. */
  lemma {:induction false} PairwiseSum(hdr: Headers, ps: seq<int>, c: int)
    requires |ps| >= 2 && forall p :: p in ps ==> p in hdr
    requires forall i, j :: 0 <= i < j < |ps| ==> UsedBytes(hdr, ps[i]) + UsedBytes(hdr, ps[j]) > c
    ensures 2 * UsedSum(hdr, ps) > |ps| * c
  {
    hide UsedSum;
    var n := |ps|;
    var q, rest := ps[..n - 2], UsedSum(hdr, ps[..n - 2]);
    LastTwo(hdr, ps);
    var x, y := UsedBytes(hdr, ps[n - 2]), UsedBytes(hdr, ps[n - 1]);
    assert x + y > c && UsedSum(hdr, ps) == rest + x + y;
    if n == 2 {
      NoUse(hdr, q);
    } else if n == 3 {
      OneUse(hdr, q);
      var z := UsedBytes(hdr, ps[0]);
      assert rest == z && z + x > c && z + y > c;
    } else {
      assert forall i :: 0 <= i < n - 2 ==> q[i] == ps[i];
      PairwiseSum(hdr, q, c);
      Distribute(n, c);
    }
  }

  lemma Distribute(n: int, c: int)
    ensures n * c == (n - 2) * c + 2 * c
  {
  }

  lemma NoUse(hdr: Headers, ps: seq<int>)
    requires ps == []
    ensures UsedSum(hdr, ps) == 0
  {
  }

  lemma OneUse(hdr: Headers, ps: seq<int>)
    requires |ps| == 1 && ps[0] in hdr
    ensures UsedSum(hdr, ps) == UsedBytes(hdr, ps[0])
  {
  }

  /** The to-space bound: two or more new pages hold more than half of what they could. */
  lemma ToSpaceBound(hdr: Headers, added: seq<int>, copied: int)
    requires SpaceOk(hdr, added, copied) && |added| >= 2
    ensures |added| * CAPACITY < 2 * copied
  {
    PairwiseSum(hdr, added, CAPACITY);
  }

  // ----- the second pass -----

  /** The invariant of the second pass. `order` lists the copied blocks in the order of copying. */
  ghost predicate EvacInv(h: Heap, st: Start, alive: seq<int>, moved: map<int, int>, order: seq<int>)
    reads h, h.freeBlocks
  {
    && h.Supply(st.evac + alive) && h.firstPage == st.evac && h.big == st.big && st.stay <= alive
    && h.lastPage == (if alive == [] then NULL else alive[|alive| - 1])
    && h.freeBlocks.Length == SIZE_TABLE && IndexOk(h.freeBlocks[..], h.maxFreeBlock, Elems(alive), h.hdr)
    && SamePages(st, h.hdr, h.lay)
    && PageBlocks(h.lay, alive) == PageBlocks(st.lay, st.stay) + Images(moved)
    && MovesOk(st.mem, h.mem, st.Blocks(), moved)
    && moved.Keys == Elems(order) && NoDup(order)
    && h.marked == st.marked - Images(moved) && h.pinned == st.pinned - Images(moved)
      && h.dead == st.dead - Images(moved)
    && SpaceOk(h.hdr, alive[|st.stay|..], SizeSum(st.mem, order))
  }

  /** The pages that go keep their headers and their block lists. */
  ghost predicate SamePages(st: Start, hdr: Headers, lay: Layout) {
    forall p :: p in st.evac ==>
      p in st.lay && p in lay && lay[p] == st.lay[p] && p in st.hdr && p in hdr
      && hdr[p] == st.hdr[p]
  }

  lemma SamePagesBlocks(st: Start, hdr: Headers, lay: Layout)
    requires SamePages(st, hdr, lay)
    ensures PageBlocks(lay, st.evac) == PageBlocks(st.lay, st.evac)
  {
  }

  /** Where the blocks of the alive pages are after one copy. */
  lemma BlocksAfterCopy(lay: Layout, lay': Layout, alive: seq<int>, alive': seq<int>, to: int, c: int)
    requires to in alive ==> alive' == alive && to in lay && lay' == lay[to := lay[to] + [c]]
    requires to !in alive ==> alive' == alive + [to] && lay' == lay[to := [c]]
    ensures PageBlocks(lay', alive') == PageBlocks(lay, alive) + {c}
  {
    if to in alive {
      FilledBlocks(lay, lay', alive, to, c);
    } else {
      var lay1 := lay[to := []];
      OpenedBlocks(lay, lay1, alive, to);
      assert lay1[to] + [c] == [c];
      assert lay' == lay1[to := lay1[to] + [c]];
      FilledBlocks(lay1, lay', alive', to, c);
    }
  }

  lemma SpaceAfterCopy(mem: Memory, hdr: Headers, hdr': Headers, lay: Layout, stay: seq<int>, alive: seq<int>,
                       alive': seq<int>, to: int, s: int, copied: int)
    requires stay <= alive && PagesOk(mem, hdr, lay, alive) && s >= 8
    requires SpaceOk(hdr, alive[|stay|..], copied)
    requires to in hdr' && hdr' == hdr[to := hdr'[to]]
    requires to in alive ==> alive' == alive && UsedBytes(hdr', to) == UsedBytes(hdr, to) + BLOCK + s
    requires to !in alive ==> alive' == alive + [to] && NoneFits(hdr, alive, s) && UsedBytes(hdr', to) == BLOCK + s
    ensures SpaceOk(hdr', alive'[|stay|..], copied + BLOCK + s)
  {
    hide SpaceOk, NoneFits, PageOk;
    if to in alive {
      SpaceFilled(hdr, hdr', alive[|stay|..], copied, to, BLOCK + s);
    } else {
      assert alive'[|stay|..] == alive[|stay|..] + [to];
      SpaceOpened(mem, hdr, hdr', lay, alive, alive[|stay|..], copied, to, s);
    }
  }

  lemma SizeSumSnoc(mem: Memory, bs: seq<int>, b: int)
    requires b in mem
    ensures SizeSum(mem, bs + [b]) == SizeSum(mem, bs) + BLOCK + 8 * |mem[b]|
  {
  }

  /** The block at b, on a page that goes and not copied yet. */
  lemma StillThere(st: Start, mem: Memory, hdr: Headers, lay: Layout, alive: seq<int>, moved: map<int, int>, b: int)
    requires PagesOk(mem, hdr, lay, st.evac + alive) && SamePages(st, hdr, lay)
    requires MovesOk(st.mem, mem, st.Blocks(), moved) && b in PageBlocks(st.lay, st.evac) && b !in moved
    ensures b in PageBlocks(lay, st.evac) && b in PageBlocks(lay, st.evac + alive) && b in st.Blocks()
            && b !in Images(moved)
    ensures b in mem && b in st.mem && mem[b] == st.mem[b] && mem[b] != []
  {
    SamePagesBlocks(st, hdr, lay);
    BlocksJoin(lay, st.evac, alive);
    BlockKnown(mem, hdr, lay, st.evac + alive, b);
  }

  /** A fresh block address is no original block and no earlier copy. */
  lemma NewCopy(st: Start, hdr: Headers, lay: Layout, alive: seq<int>, moved: map<int, int>, c: int)
    requires SamePages(st, hdr, lay) && PageBlocks(lay, alive) == PageBlocks(st.lay, st.stay) + Images(moved)
    requires c !in PageBlocks(lay, st.evac + alive) && c !in st.big
    ensures c !in st.Blocks() && c !in Images(moved)
  {
  }

  /** One marked block is copied. */
  method EvacuateBlock(h: Heap, b: int, ghost st: Start, alive: seq<int>, ghost moved: map<int, int>,
                    ghost order: seq<int>)
    returns (alive': seq<int>, ghost moved': map<int, int>, ghost order': seq<int>)
    requires EvacInv(h, st, alive, moved, order) && alive != []
    requires b in PageBlocks(st.lay, st.evac) && b !in moved
    modifies h`pool, h`brk, h`freePages, h`totalPages, h`pagePerMap, h`expansions, h`hdr, h`lay, h`lastPage
    modifies h`mem, h`marked, h`pinned, h`dead, h`maxFreeBlock, h.freeBlocks
    ensures EvacInv(h, st, alive', moved', order') && alive' != []
    ensures moved'.Keys == moved.Keys + {b}
  {
    hide AreasOk, PageOk, PagesOk, NoDup, PageBlocks, Pow2, IndexOk, Copied, NoneFits, Tightest, Elems, MovesOk,
         SpaceOk, SizeSum, Images, SamePages, Start.Blocks;
    StillThere(st, h.mem, h.hdr, h.lay, alive, moved, b);
    PagesPart(h.mem, h.hdr, h.lay, st.evac, alive);
    var to;
    ghost var c;
    alive', to, c := CopyBlock(h, b, st.evac, alive);
    moved', order' := moved[b := c], order + [b];
    NewCopy(st, old(h.hdr), old(h.lay), alive, moved, c);
    MoveOne(st.mem, old(h.mem), st.Blocks(), moved, b, c);
    ImagesAdd(moved, b, c);
    BlocksAfterCopy(old(h.lay), h.lay, alive, alive', to, c);
    SamePagesElsewhere(st, old(h.hdr), h.hdr, old(h.lay), h.lay, to);
    SizeSumSnoc(st.mem, order, b);
    SpaceAfterCopy(old(h.mem), old(h.hdr), h.hdr, old(h.lay), st.stay, alive, alive', to, 8 * |old(h.mem)[b]|,
                   SizeSum(st.mem, order));
    OrderAdd(order, b);
  }

  lemma PagesPart(mem: Memory, hdr: Headers, lay: Layout, ps: seq<int>, qs: seq<int>)
    requires PagesOk(mem, hdr, lay, ps + qs)
    ensures PagesOk(mem, hdr, lay, ps) && PagesOk(mem, hdr, lay, qs)
  {
  }

  lemma SamePagesElsewhere(st: Start, hdr: Headers, hdr': Headers, lay: Layout, lay': Layout, to: int)
    requires SamePages(st, hdr, lay) && to !in st.evac && to in hdr' && to in lay'
    requires hdr' == hdr[to := hdr'[to]] && lay' == lay[to := lay'[to]]
    ensures SamePages(st, hdr', lay')
  {
  }

  lemma OrderAdd(order: seq<int>, b: int)
    requires NoDup(order) && b !in Elems(order)
    ensures NoDup(order + [b]) && Elems(order + [b]) == Elems(order) + {b}
  {
  }

  /** The page that opens the alive list is listed by hand, and with it max_free_block is set. */
  method ListFirst(h: Heap, p: int)
    requires h.freeBlocks.Length == SIZE_TABLE && IndexOk(h.freeBlocks[..], h.maxFreeBlock, {}, h.hdr)
    requires HasRoom(h.hdr, p) && h.hdr[p].avail == FRESH_AVAIL
    modifies h`maxFreeBlock, h.freeBlocks
    ensures IndexOk(h.freeBlocks[..], h.maxFreeBlock, {p}, h.hdr)
  {
    hide IndexOk;
    ghost var index := h.freeBlocks[..];
    IndexAdd(index, h.maxFreeBlock, {}, h.hdr, p);
    var top := BIG_BLOCK_THRESHOLD;
    h.freeBlocks[top] := [p] + h.freeBlocks[top];
    assert h.freeBlocks[..] == index[top := [p] + index[top]];
    IndexTop(h.freeBlocks[..], if h.maxFreeBlock < top then top else h.maxFreeBlock, {} + {p}, h.hdr);
    assert {} + {p} == {p};
    h.maxFreeBlock := top;
  }

  /** The page itself. */
  method RequestFirst(h: Heap, ghost evac: seq<int>) returns (p: int)
    requires h.Supply(evac) && h.freeBlocks.Length == SIZE_TABLE && IndexOk(h.freeBlocks[..], h.maxFreeBlock, {}, h.hdr)
    modifies h`pool, h`brk, h`freePages, h`totalPages, h`pagePerMap, h`expansions, h`hdr, h`lay, h`lastPage,
             h`maxFreeBlock, h.freeBlocks
    ensures h.Supply(evac + [p]) && h.lastPage == p && p !in evac
    ensures IndexOk(h.freeBlocks[..], h.maxFreeBlock, {p}, h.hdr)
    ensures h.hdr == old(h.hdr)[p := PageHeader(p + PAGE_HEADER, FRESH_AVAIL)] && h.lay == old(h.lay)[p := []]
  {
    hide AreasOk, PageOk, PagesOk, NoDup, Pow2, IndexOk, Elems;
    p := h.RequestNewPage(true, evac);
    h.lastPage := p;
    IndexFrame(h.freeBlocks[..], h.maxFreeBlock, {}, old(h.hdr), {}, h.hdr);
    ListFirst(h, p);
  }

  /** With no page staying, the first marked block opens the alive list, and with it the table. */
  method OpenFirst(h: Heap, ghost st: Start, ghost moved: map<int, int>, ghost order: seq<int>)
                   returns (alive: seq<int>)
    requires EvacInv(h, st, [], moved, order)
    modifies h`pool, h`brk, h`freePages, h`totalPages, h`pagePerMap, h`expansions, h`hdr, h`lay, h`lastPage,
             h`maxFreeBlock, h.freeBlocks
    ensures EvacInv(h, st, alive, moved, order) && alive != []
  {
    hide AreasOk, PageOk, PagesOk, NoDup, PageBlocks, Pow2, IndexOk, MovesOk, SizeSum, Images, SamePages, Start.Blocks,
         SpaceOk, Heap.Supply;
    FirstFacts(st, h.hdr, h.lay, moved, order);
    var p := RequestFirst(h, st.evac);
    alive := [p];
    FirstOpened(st, old(h.hdr), h.hdr, old(h.lay), h.lay, order, p);
  }

  lemma FirstFacts(st: Start, hdr: Headers, lay: Layout, moved: map<int, int>, order: seq<int>)
    requires st.stay <= []
    ensures st.evac + [] == st.evac && st.stay == [] && Elems([]) == {}
  {
  }

  lemma FirstOpened(st: Start, hdr: Headers, hdr': Headers, lay: Layout, lay': Layout, order: seq<int>, p: int)
    requires st.stay == [] && SamePages(st, hdr, lay) && SpaceOk(hdr, [], SizeSum(st.mem, order)) && p !in st.evac
    requires hdr' == hdr[p := PageHeader(p + PAGE_HEADER, FRESH_AVAIL)] && lay' == lay[p := []]
    ensures Elems([p]) == {p} && st.stay <= [p] && [p][|st.stay|..] == [p]
    ensures PageBlocks(lay', [p]) == PageBlocks(lay, [])
    ensures SamePages(st, hdr', lay') && SpaceOk(hdr', [p][|st.stay|..], SizeSum(st.mem, order))
  {
  }

  /** The walk of the second pass over one page. The two assertions are those of the source. */
  method EvacuatePage(h: Heap, p: int, ghost st: Start, alive: seq<int>, ghost moved: map<int, int>,
                    ghost order: seq<int>)
    returns (alive': seq<int>, ghost moved': map<int, int>, ghost order': seq<int>)
    requires EvacInv(h, st, alive, moved, order)
    requires p in st.evac && p in st.lay && Elems(st.lay[p]) !! moved.Keys
    requires PageBlocks(st.lay, st.evac) !! st.pinned && PageBlocks(st.lay, st.evac) * st.marked !! st.dead
    modifies h`pool, h`brk, h`freePages, h`totalPages, h`pagePerMap, h`expansions, h`hdr, h`lay, h`lastPage
    modifies h`mem, h`marked, h`pinned, h`dead, h`maxFreeBlock, h.freeBlocks
    ensures EvacInv(h, st, alive', moved', order')
    ensures moved'.Keys == moved.Keys + Elems(st.lay[p]) * st.marked
  {
    hide AreasOk, PageOk, NoDup, PageBlocks, Pow2, IndexOk, MovesOk, SizeSum, Images, Start.Blocks, SpaceOk, Pos,
         EvacInv, Heap.Supply, PagesOk, SamePages;
    alive', moved', order' := alive, moved, order;
    ghost var bs, i := st.lay[p], 0;
    var b := p + PAGE_HEADER;
    EvacWalk(h, st, alive', moved', order', p, 0);
    assert bs[..0] == [];
    while b != h.hdr[p].free
      invariant 0 <= i <= |bs| && EvacInv(h, st, alive', moved', order')
      invariant p in h.hdr && b == Pos(bs, h.hdr[p].free, i) && (b != h.hdr[p].free <==> i < |bs|)
      invariant moved'.Keys == moved.Keys + Elems(bs[..i]) * st.marked
      decreases |bs| - i
    {
      EvacWalk(h, st, alive', moved', order', p, i);
      assert b !in h.pinned;
      assert !(b in h.dead && b in h.marked);
      if b in h.marked {
        if alive' == [] {
          alive' := OpenFirst(h, st, moved', order');
        }
        alive', moved', order' := EvacuateBlock(h, b, st, alive', moved', order');
      }
      EvacWalk(h, st, alive', moved', order', p, i);
      b := NextBlock(h.mem, b);
      i := i + 1;
      EvacWalk(h, st, alive', moved', order', p, i);
    }
    assert bs[..i] == bs;
  }

  /** The walk over a page that goes, in any state of the second pass. */
  lemma EvacWalk(h: Heap, st: Start, alive: seq<int>, moved: map<int, int>, order: seq<int>, p: int, i: nat)
    requires EvacInv(h, st, alive, moved, order) && p in st.evac && p in st.lay && i <= |st.lay[p]|
    ensures p in h.hdr
    ensures var bs, free := st.lay[p], h.hdr[p].free;
      && Pos(bs, free, 0) == p + PAGE_HEADER && (Pos(bs, free, i) != free <==> i < |bs|)
      && (i < |bs| ==>
          && Pos(bs, free, i) == bs[i] && bs[i] in h.mem && NextBlock(h.mem, bs[i]) == Pos(bs, free, i + 1)
          && bs[i] in PageBlocks(st.lay, st.evac) && bs[i] in Elems(bs)
          && bs[i] !in Elems(bs[..i]) && Elems(bs[..i + 1]) == Elems(bs[..i]) + {bs[i]}
          && (bs[i] in h.marked <==> bs[i] in st.marked) && (bs[i] in h.pinned <==> bs[i] in st.pinned)
          && (bs[i] in h.dead <==> bs[i] in st.dead))
  {
    hide AreasOk, PageOk, NoDup, Pow2, IndexOk, SizeSum, SpaceOk;
    assert p in st.evac + alive;
    WalkStep(h.mem, p, h.hdr[p], h.lay[p], i);
    if i < |st.lay[p]| {
      assert st.lay[p][i] in st.lay[p];
      assert st.lay[p][i] in PageBlocks(st.lay, st.evac);
      assert st.lay[p][i] in st.Blocks();
    }
  }

  /** The second pass of sweep. */
  method EvacuateAll(h: Heap, ghost st: Start, alive: seq<int>)
    returns (alive': seq<int>, ghost moved: map<int, int>, ghost order: seq<int>)
    requires EvacInv(h, st, alive, map[], []) && alive == st.stay && h.firstPage == st.evac
    requires DisjointPages(st.lay, st.evac) && NoDup(st.evac)
    requires PageBlocks(st.lay, st.evac) !! st.pinned && PageBlocks(st.lay, st.evac) * st.marked !! st.dead
    modifies h`pool, h`brk, h`freePages, h`totalPages, h`pagePerMap, h`expansions, h`hdr, h`lay, h`lastPage
    modifies h`mem, h`marked, h`pinned, h`dead, h`maxFreeBlock, h.freeBlocks
    ensures EvacInv(h, st, alive', moved, order)
    ensures moved.Keys == PageBlocks(st.lay, st.evac) * st.marked
  {
    hide EvacInv, DisjointPages, NoDup, PageBlocks, Elems, Start.Blocks;
    alive', moved, order := alive, map[], [];
    var e := 0;
    assert st.evac[..0] == [];
    NoBlocks(st.lay);
    while e < |h.firstPage|
      invariant EvacInv(h, st, alive', moved, order) && h.firstPage == st.evac && 0 <= e <= |st.evac|
      invariant moved.Keys == PageBlocks(st.lay, st.evac[..e]) * st.marked
    {
      var p := h.firstPage[e];
      assert p in st.lay by { EvacListed(h, st, alive', moved, order, p); }
      BlocksUpTo(st.lay, st.evac, e);
      alive', moved, order := EvacuatePage(h, p, st, alive', moved, order);
      EvacListed(h, st, alive', moved, order, p);
      e := e + 1;
    }
    assert st.evac[..e] == st.evac;
  }

  lemma EvacListed(h: Heap, st: Start, alive: seq<int>, moved: map<int, int>, order: seq<int>, p: int)
    requires EvacInv(h, st, alive, moved, order) && p in st.evac
    ensures p in st.lay && h.firstPage == st.evac
  {
  }
}
