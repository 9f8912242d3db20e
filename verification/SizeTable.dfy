/** free_blocks and max_free_block: the pages with room, indexed by how much room, and the search
    of copy_block through them. */
module SizeTable {
  import opened Lists
  import opened Objects
  import opened Pages
  import opened Heaps

  predicate HasRoom(hdr: Headers, p: int) { p in hdr && !IsFull(p, hdr[p]) }

  /** The table lists every page of ps that has room exactly once, under its true room; max bounds
      the sizes in use. */
  ghost predicate IndexOk(index: seq<seq<int>>, max: int, ps: set<int>, hdr: Headers) {
    && |index| == SIZE_TABLE && 0 <= max < SIZE_TABLE
    && (forall k :: 0 <= k < SIZE_TABLE ==> NoDup(index[k]))
    && (forall k, p :: 0 <= k < SIZE_TABLE && p in index[k] ==> p in ps && HasRoom(hdr, p) && hdr[p].avail == k)
    && (forall p :: p in ps && HasRoom(hdr, p) ==>
      8 <= hdr[p].avail <= BIG_BLOCK_THRESHOLD && hdr[p].avail % 8 == 0 && p in index[hdr[p].avail])
    && (forall k :: max < k < SIZE_TABLE ==> index[k] == [])
  }

  lemma EmptyIndex(index: seq<seq<int>>, hdr: Headers)
    requires IndexEmpty(index)
    ensures IndexOk(index, 0, {}, hdr)
  {
  }

  /** Exactly once: a page listed twice would be listed at one size, and there only once. */
  lemma ListedOnce(index: seq<seq<int>>, max: int, ps: set<int>, hdr: Headers, k: int, i: int, l: int, j: int)
    requires IndexOk(index, max, ps, hdr)
    requires 0 <= k < SIZE_TABLE && 0 <= l < SIZE_TABLE && 0 <= i < |index[k]| && 0 <= j < |index[l]|
    requires index[k][i] == index[l][j]
    ensures k == l && i == j
  {
    var p := index[k][i];
    assert p in index[k] && p in index[l];
    assert HasRoom(hdr, p);
    assert hdr[p].avail == k && hdr[p].avail == l;
    assert NoDup(index[k]);
  }

  lemma ListedSizes(index: seq<seq<int>>, max: int, ps: set<int>, hdr: Headers)
    requires IndexOk(index, max, ps, hdr)
    ensures forall k :: 0 <= k < SIZE_TABLE && index[k] != [] ==> 8 <= k <= max && k % 8 == 0
  {
    forall k | 0 <= k < SIZE_TABLE && index[k] != []
      ensures 8 <= k <= max && k % 8 == 0
    {
      var p := index[k][0];
      assert p in index[k];
      assert HasRoom(hdr, p) && hdr[p].avail == k;
    }
  }

  lemma IndexAdd(index: seq<seq<int>>, max: int, ps: set<int>, hdr: Headers, p: int)
    requires IndexOk(index, max, ps, hdr) && p !in ps && HasRoom(hdr, p)
    requires 8 <= hdr[p].avail <= BIG_BLOCK_THRESHOLD && hdr[p].avail % 8 == 0
    ensures var k := hdr[p].avail;
            IndexOk(index[k := [p] + index[k]], if max < k then k else max, ps + {p}, hdr)
  {
  }

  /** max_free_block may be raised to the largest room there is. */
  lemma IndexTop(index: seq<seq<int>>, max: int, ps: set<int>, hdr: Headers)
    requires IndexOk(index, max, ps, hdr)
    ensures IndexOk(index, BIG_BLOCK_THRESHOLD, ps, hdr)
  {
    forall k | 0 <= k < SIZE_TABLE && index[k] != []
      ensures k <= BIG_BLOCK_THRESHOLD
    {
      var p := index[k][0];
      assert p in index[k];
      assert HasRoom(hdr, p) && hdr[p].avail == k;
    }
  }

  lemma IndexRemove(index: seq<seq<int>>, max: int, ps: set<int>, hdr: Headers, k: int)
    requires IndexOk(index, max, ps, hdr) && 0 <= k < SIZE_TABLE && index[k] != []
    ensures var p := index[k][0];
            p in ps && HasRoom(hdr, p) && hdr[p].avail == k && IndexOk(index[k := index[k][1..]], max, ps - {p}, hdr)
  {
  }

  /** Pages that are not listed may change, and a full page needs no listing. */
  lemma IndexFrame(index: seq<seq<int>>, max: int, ps: set<int>, hdr: Headers, ps': set<int>, hdr': Headers)
    requires IndexOk(index, max, ps, hdr)
    requires ps <= ps' && forall p :: p in ps ==> p in hdr && p in hdr' && hdr'[p] == hdr[p]
    requires forall p :: p in ps' - ps ==> !HasRoom(hdr', p)
    ensures IndexOk(index, max, ps', hdr')
  {
  }

  /** The tail of copy_block, and of the pinned branch of sweep: list p if it has room. */
  method AddToIndex(h: Heap, p: int, ghost ps: set<int>)
    requires h.freeBlocks.Length == SIZE_TABLE
    requires IndexOk(h.freeBlocks[..], h.maxFreeBlock, ps, h.hdr) && p !in ps && p in h.hdr
    requires forall q :: q in ps ==> q in h.hdr
    requires !IsFull(p, h.hdr[p]) ==> 8 <= h.hdr[p].avail <= BIG_BLOCK_THRESHOLD && h.hdr[p].avail % 8 == 0
    modifies h`maxFreeBlock, h.freeBlocks
    ensures IndexOk(h.freeBlocks[..], h.maxFreeBlock, ps + {p}, h.hdr)
  {
    hide IndexOk, NoDup;
    if !IsFull(p, h.hdr[p]) {
      var k := h.hdr[p].avail;
      IndexAdd(h.freeBlocks[..], h.maxFreeBlock, ps, h.hdr, p);
      h.freeBlocks[k] := [p] + h.freeBlocks[k];
      assert h.freeBlocks[..] == old(h.freeBlocks[..])[k := [p] + old(h.freeBlocks[..])[k]];
      if h.maxFreeBlock < k {
        h.maxFreeBlock := k;
      }
    } else {
      IndexFrame(h.freeBlocks[..], h.maxFreeBlock, ps, h.hdr, ps + {p}, h.hdr);
    }
  }

  /** The search of copy_block: the page with the least room that is enough, unlisted; NULL when no
      listed page has room for s bytes. */
  method TakeTightest(h: Heap, s: int, ghost ps: set<int>) returns (p: int)
    requires h.freeBlocks.Length == SIZE_TABLE && 8 <= s && s % 8 == 0
    requires IndexOk(h.freeBlocks[..], h.maxFreeBlock, ps, h.hdr) && NULL !in ps
    modifies h.freeBlocks
    ensures p != NULL ==> p in ps && HasRoom(h.hdr, p) && s <= h.hdr[p].avail
    ensures p != NULL ==> forall q :: q in ps && HasRoom(h.hdr, q) && s <= h.hdr[q].avail ==>
            h.hdr[p].avail <= h.hdr[q].avail
    ensures p != NULL ==> IndexOk(h.freeBlocks[..], h.maxFreeBlock, ps - {p}, h.hdr)
    ensures p == NULL ==> forall q :: q in ps && HasRoom(h.hdr, q) ==> h.hdr[q].avail < s
    ensures p == NULL ==> IndexOk(h.freeBlocks[..], h.maxFreeBlock, ps, h.hdr)
  {
    var size := s;
    while size <= h.maxFreeBlock
      invariant s <= size && size % 8 == 0
      invariant h.freeBlocks[..] == old(h.freeBlocks[..])
      invariant forall k :: s <= k < size && k < SIZE_TABLE && k % 8 == 0 ==> h.freeBlocks[..][k] == []
      decreases h.maxFreeBlock - size
    {
      ghost var index := h.freeBlocks[..];
      if h.freeBlocks[size] != [] {
        IndexRemove(index, h.maxFreeBlock, ps, h.hdr, size);
        p := h.freeBlocks[size][0];
        assert p == index[size][0] && p in index[size];
        forall q | q in ps && HasRoom(h.hdr, q) && s <= h.hdr[q].avail
          ensures size <= h.hdr[q].avail
        {
          assert q in index[h.hdr[q].avail];
        }
        h.freeBlocks[size] := h.freeBlocks[size][1..];
        assert h.freeBlocks[..] == index[size := index[size][1..]];
        return;
      }
      size := size + 8;
    }
    p := NULL;
    forall q | q in ps && HasRoom(h.hdr, q)
      ensures h.hdr[q].avail < s
    {
      assert q in h.freeBlocks[..][h.hdr[q].avail];
    }
  }

  /** The last loop of sweep: forget every list. */
  method ClearIndex(h: Heap, ghost ps: set<int>)
    requires h.freeBlocks.Length == SIZE_TABLE
    requires IndexOk(h.freeBlocks[..], h.maxFreeBlock, ps, h.hdr)
    modifies h`maxFreeBlock, h.freeBlocks
    ensures IndexEmpty(h.freeBlocks[..]) && h.maxFreeBlock == 0
  {
    ghost var index := h.freeBlocks[..];
    ListedSizes(index, h.maxFreeBlock, ps, h.hdr);
    var size := 8;
    while size <= h.maxFreeBlock
      invariant 8 <= size && size % 8 == 0 && h.maxFreeBlock == old(h.maxFreeBlock)
      invariant forall k :: 0 <= k < SIZE_TABLE ==> h.freeBlocks[k] == (if k < size then [] else index[k])
      decreases h.maxFreeBlock - size
    {
      h.freeBlocks[size] := [];
      assert forall k :: size < k < size + 8 ==> k % 8 != 0;
      size := size + 8;
    }
    h.maxFreeBlock := 0;
  }
}
