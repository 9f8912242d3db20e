/** A full collection end to end (mark_and_sweep in go.cpp), and the operations between collections. */
module Collectors {
  import opened Lists
  import opened Objects
  import opened Pages
  import opened Heaps
  import opened GoSpec
  import opened Capacity
  import opened Marking
  import opened DerefRoots
  import opened DerefScan
  import opened MarkPhases
  import opened Evacuate
  import opened FixUp
  import opened Sweep
  import opened Isomorphism
  import opened SizeTable
  import opened Words
  import SweepPinned

  // ---------------------------------------------------------------- registered objects

  /** The entry names a live object, and its range is the object's. */
  ghost predicate EntryOk(shells: Shells, mem: Memory, live: set<int>, e: Entry) {
    var b := BlockOf(e.p);
    b in live && b in mem && MetaOk(shells, mem[b]) && e.end == e.p + shells[mem[b][1]].size * Value(mem[b][2])
  }

  ghost predicate EntriesOk(shells: Shells, mem: Memory, live: set<int>, t: seq<seq<Entry>>) {
    forall i, k :: 0 <= i < |t| && 0 <= k < |t[i]| ==> EntryOk(shells, mem, live, t[i][k])
  }

  lemma PinsLive(shells: Shells, mem: Memory, live: set<int>, t: seq<seq<Entry>>, seen: set<int>)
    requires EntriesOk(shells, mem, live, t)
    ensures Pins(t, seen) <= live
  {
  }

  /** No two blocks overlap. */
  lemma BlocksApart(h: Heap, a: int, b: int)
    requires h.Supply(h.firstPage) && a in h.Blocks() && b in h.Blocks() && a != b
    ensures a in h.mem && b in h.mem && (NextBlock(h.mem, a) <= b || NextBlock(h.mem, b) <= a)
  {
    var ps := h.firstPage;
    hide PageOk, PageBlocks;
    if a in Elems(h.big) && b in Elems(h.big) {
      assert BigApart(h.mem, a, b);
    } else if a in Elems(h.big) {
      PageAndBig(h, b, a);
    } else if b in Elems(h.big) {
      PageAndBig(h, a, b);
    } else {
      var p := PageOf(h, a);
      var q := PageOf(h, b);
      BlockInPage(h.mem, p, h.hdr[p], h.lay[p], a);
      BlockInPage(h.mem, q, h.hdr[q], h.lay[q], b);
      if p == q {
        PageMates(h.mem, p, h.hdr[p], h.lay[p], a, b);
      } else {
        assert p in Elems(ps + h.pool) && q in Elems(ps + h.pool);
        assert Apart(p, q);
      }
    }
  }

  lemma PageMates(mem: Memory, p: int, h: PageHeader, bs: seq<int>, a: int, b: int)
    requires PageOk(mem, p, h, bs) && a in bs && b in bs && a != b
    ensures a in mem && b in mem && (NextBlock(mem, a) <= b || NextBlock(mem, b) <= a)
  {
  }

  lemma PageOf(h: Heap, b: int) returns (p: int)
    requires h.Supply(h.firstPage) && b in PageBlocks(h.lay, h.firstPage)
    ensures p in h.firstPage && p in h.hdr && p in h.lay && b in h.lay[p] && PageOk(h.mem, p, h.hdr[p], h.lay[p])
  {
    p :| p in h.firstPage && p in h.lay && b in h.lay[p];
  }

  lemma PageAndBig(h: Heap, a: int, b: int)
    requires h.Supply(h.firstPage) && a in PageBlocks(h.lay, h.firstPage) && b in Elems(h.big)
    ensures a in h.mem && b in h.mem && (NextBlock(h.mem, a) <= b || NextBlock(h.mem, b) <= a)
  {
    var p := PageOf(h, a);
    BlockInPage(h.mem, p, h.hdr[p], h.lay[p], a);
    assert p in h.firstPage + h.pool;
    assert p in Elems(h.firstPage + h.pool);
    assert OutsidePage(h.mem, b, p);
  }

  lemma Product(a: int, b: int)
    requires a >= 0 && b >= 0
    ensures a * b >= 0
  {
  }

  /** The size that gc_new asks for. */
  function Bytes(sh: Shell, count: nat): nat
    requires sh.size >= 0
  {
    Product(sh.size, count);
    META + sh.size * count
  }

  /** The address of an object passes for a heap pointer. */
  lemma ObjectIsHeapPointer(h: Heap, b: int)
    requires h.Supply(h.firstPage) && b in h.Blocks() && b in h.mem && MetaOk(h.shells, h.mem[b])
    ensures h.IsHeapPointer(b + BLOCK + META) && b % 8 == 0 && b > 0
  {
    Product(h.shells[h.mem[b][1]].size, Value(h.mem[b][2]));
    if b in Elems(h.big) {
      assert b in h.big;
    } else {
      var p := PageOf(h, b);
      BlockInPage(h.mem, p, h.hdr[p], h.lay[p], b);
      assert p in h.firstPage + h.pool;
      assert p in Elems(h.firstPage + h.pool);
    }
  }

  /** So does every address in an object, and the one behind it. */
  lemma RangeIsHeap(h: Heap, b: int, w: int)
    requires h.Supply(h.firstPage) && b in h.Blocks() && b in h.mem && MetaOk(h.shells, h.mem[b])
    requires b + BLOCK + META <= w <= b + BLOCK + META + h.shells[h.mem[b][1]].size * Value(h.mem[b][2])
    ensures h.IsHeapPointer(w)
  {
    if b in Elems(h.big) {
      assert b in h.big;
    } else {
      var p := PageOf(h, b);
      BlockInPage(h.mem, p, h.hdr[p], h.lay[p], b);
      assert p in h.firstPage + h.pool;
      assert p in Elems(h.firstPage + h.pool);
    }
  }

  /** Some stack word lies in the range of entry k of bucket i, is even, and hashes to that bucket. */
  ghost predicate TouchedBy(t: seq<seq<Entry>>, stacks: seq<seq<int>>, i: int, k: int)
    requires 0 <= i < |t| && 0 <= k < |t[i]|
  {
    exists s, j :: 0 <= s < |stacks| && 0 <= j < |stacks[s]| && Touches(t, stacks[s][j], i, k)
  }

  /** So for some registration of the object b. */
  ghost predicate TouchedObject(t: seq<seq<Entry>>, stacks: seq<seq<int>>, b: int) {
    exists i, k :: 0 <= i < |t| && 0 <= k < |t[i]| && t[i][k].p == b + BLOCK + META && TouchedBy(t, stacks, i, k)
  }

  lemma RegisteredApart(h: Heap, t: seq<seq<Entry>>)
    requires h.Supply(h.firstPage) && EntriesOk(h.shells, h.mem, h.Live(), t)
    ensures OneObjectEach(t)
  {
    hide Heap.Supply;
    forall i, j, k | 0 <= i < |t| && 0 <= j < |t[i]| && 0 <= k < |t[i]|
                     && t[i][j].p <= t[i][k].end && t[i][k].p <= t[i][j].end
      ensures t[i][j].p == t[i][k].p && t[i][j].end == t[i][k].end
    {
      assert EntryOk(h.shells, h.mem, h.Live(), t[i][j]) && EntryOk(h.shells, h.mem, h.Live(), t[i][k]);
      RangesApart(h, t[i][j], t[i][k]);
    }
  }

  lemma RangesOrdered(h: Heap, t: seq<seq<Entry>>)
    requires EntriesOk(h.shells, h.mem, h.Live(), t)
    ensures forall i, k :: 0 <= i < |t| && 0 <= k < |t[i]| ==> t[i][k].p <= t[i][k].end
  {
    forall i, k | 0 <= i < |t| && 0 <= k < |t[i]|
      ensures t[i][k].p <= t[i][k].end
    {
      assert EntryOk(h.shells, h.mem, h.Live(), t[i][k]);
      var d := h.mem[BlockOf(t[i][k].p)];
      Product(h.shells[d[1]].size, Value(d[2]));
    }
  }

  /** The ranges of registered objects, closed as they are, do not overlap: behind every object
      comes at least the meta of the next one. */
  lemma RangesApart(h: Heap, e: Entry, f: Entry)
    requires h.Supply(h.firstPage) && EntryOk(h.shells, h.mem, h.Live(), e) && EntryOk(h.shells, h.mem, h.Live(), f)
    requires e.p <= f.end && f.p <= e.end
    ensures e.p == f.p
  {
    if e.p != f.p {
      BlocksApart(h, BlockOf(e.p), BlockOf(f.p));
    }
  }

  lemma InOwnBucket(t: DerefTable)
    requires t.Valid()
    ensures |t.Contents()| >= 1 && forall i, k :: 0 <= i < |t.Contents()| && 0 <= k < |t.Contents()[i]| ==>
            i == Hash(t.Contents()[i][k].p, |t.Contents()|)
  {
    hide Buckets, PoolApart, Below, SumLen, Hash;
    forall i, k | 0 <= i < |t.Contents()| && 0 <= k < |t.Contents()[i]|
      ensures i == Hash(t.Contents()[i][k].p, |t.Contents()|)
    {
      assert t.chains[i][k] in t.chains[i];
    }
  }

  /** What an operation finds: the heap with its live objects, its pages and its big blocks, the roots, the
      table of dereferenced roots, and the words of the stacks that may be pointers. */
  datatype Before = Before(shells: Shells, mem: Memory, roots: seq<seq<Word>>, live: set<int>, lay: Layout,
    pages: seq<int>,
                           big: set<int>, table: seq<seq<Entry>>, words: set<int>)

  /** The objects that a stack word finds registered. */
  ghost function PinsOf(s: Before): set<int> { Pins(s.table, s.words) }

  /** What a full collection that began with s leaves: exactly the objects that roots and pins reach, and
      exactly those on pages without a pinned object have moved. */
  ghost predicate Collected(s: Before, survivors: set<int>, moved: map<int, int>) {
    && PinsOf(s) <= survivors <= s.live
    && (forall b :: b in survivors <==> ReachedFrom(s.shells, s.mem, RootTargets(s.roots) + PinsOf(s), b))
    && moved.Keys == Movable(s.lay, survivors, PinsOf(s), s.pages) && moved.Keys <= survivors - PinsOf(s)
  }

  /** No field of a big block that survives points to an object that has to move. */
  ghost predicate FieldsSurvive(s: Before, survivors: set<int>) {
    BigFieldsPinned(s.shells, s.mem, survivors, s.big, s.lay, s.pages, PinsOf(s))
  }

  /** Every registered object with its address, or another word of its range and bucket, on a stack has stayed,
      and is registered. */
  ghost predicate OnStackStay(s: Before, stacks: seq<seq<int>>, moved: map<int, int>, live: set<int>,
                    t: seq<seq<Entry>>) {
    |t| == |s.table| && forall i, k :: 0 <= i < |t| && 0 <= k < |s.table[i]| ==>
      OnSomeStack(stacks, s.table[i][k].p) || TouchedBy(s.table, stacks, i, k) ==>
      StaysPut(s.table[i][k].p, moved, live, t[i])
  }

  lemma StackStays(s: Before, stacks: seq<seq<int>>, moved: map<int, int>, live: set<int>, t: seq<seq<Entry>>)
    requires |t| == |s.table|
    requires forall i, k :: 0 <= i < |s.table| && 0 <= k < |s.table[i]| ==>
               OnSomeStack(stacks, s.table[i][k].p) || TouchedBy(s.table, stacks, i, k) ==>
                 StaysPut(s.table[i][k].p, moved, live, t[i])
    ensures OnStackStay(s, stacks, moved, live, t)
  {
  }

  lemma EntryIs(shells: Shells, mem: Memory, live: set<int>, t: seq<seq<Entry>>, i: int, k: int)
    requires EntriesOk(shells, mem, live, t) && 0 <= i < |t| && 0 <= k < |t[i]|
    ensures EntryOk(shells, mem, live, t[i][k])
  {
  }

  /** The first registration whose range holds the word is of the same object. */
  lemma FirstFound(t: seq<seq<Entry>>, seen: set<int>, w: int, i: int, k: int)
    requires OneObjectEach(t) && 0 <= i < |t| && 0 <= k < |t[i]| && Touches(t, w, i, k) && w in seen
    ensures StartPinned(t, seen, Pins(t, seen), i, t[i][k].p)
  {
    HashInside(w, |t|);
    var f := FirstHolder(t[i], w);
    assert Contains(t[i][k], w);
    assert f < |t[i]| && Contains(t[i][f], w);
    assert t[i][f].p == t[i][k].p;
    assert Finds(t, w) && Found(t, w).p == t[i][k].p;
    assert HitAt(t, seen, i, f);
  }

  lemma MoreStay(s: Before, stacks: seq<seq<int>>, moved: map<int, int>, live: set<int>, live': set<int>,
                 t: seq<seq<Entry>>)
    requires OnStackStay(s, stacks, moved, live, t) && live <= live'
    ensures OnStackStay(s, stacks, moved, live', t)
  {
    hide OnSomeStack;
  }

  lemma NothingYet(h: Heap, t: DerefTable)
    requires h.firstPage == [] && h.big == [] && t.Valid() && forall i :: 0 <= i < |t.chains| ==> t.chains[i] == []
    ensures h.Blocks() == {} && |t.Contents()| == |t.chains| == t.roots.Length
    ensures forall i :: 0 <= i < |t.Contents()| ==> t.Contents()[i] == []
  {
    hide Buckets, PoolApart, Below, SumLen, Hashed;
  }

  class Collector {
    const h: Heap
    const t: DerefTable
    const m: Marker

    constructor (buckets: nat, maxStackSize: nat)
      requires buckets >= 1 && maxStackSize >= 1
      ensures Ready() && BigToBig() && fresh({h, h.freeBlocks, t, t.roots, m, m.stack})
      ensures h.Blocks() == {} && h.shells == map[] && h.roots == [] && m.stack.Length == maxStackSize
      ensures |t.Contents()| == buckets && forall i :: 0 <= i < buckets ==> t.Contents()[i] == []
    {
      hide Graph, RootsInto, Heap.Valid, Heap.LiveOk, Heap.Blocks, PageBlocks, DerefTable.Valid, DerefTable.Contents;
      var heap := new Heap();
      var table := new DerefTable(buckets);
      var marker := new Marker(maxStackSize);
      h, t, m := heap, table, marker;
      new;
      NothingYet(h, t);
    }

    /** The words of a stack that may be pointers into the heap. */
    ghost function HeapWords(words: seq<int>): set<int>
      reads h`firstPage, h`pool, h`big, h`mem
    {
      set w | w in words && h.IsHeapPointer(w)
    }

    /** The table, the pins and the marks now, after the words seen. */
    ghost function Now(seen: set<int>): Progress
      reads t, h`pinned, h`marked
    {
      Progress(t.Contents(), seen, h.pinned, h.marked)
    }

    /** Marking with u as the objects and `seeds` to traverse from, beginning now. */
    ghost function Scenery(u: set<int>, seeds: set<int>): Scene
      reads h`shells, h`mem, h`pinned, t
    {
      Scene(h.shells, h.mem, u, seeds, t.Contents(), h.pinned, m.stack.Length)
    }

    /** mark_stack. `all` are the words of all stacks that will be scanned. The source drops the
        result of the traversals. */
    method MarkStack(words: seq<int>, full: bool, ghost sc: Scene, ghost all: set<int>, ghost seen0: set<int>,
                     ghost f: nat)
      returns (dropped: bool)
      requires t.Valid() && m.stack.Length >= 1 && m.stack != t.roots && Graph(h.shells, h.mem, sc.u, {})
               && NULL !in sc.u
      requires sc.shells == h.shells && sc.mem == h.mem && sc.cap == m.stack.Length
      requires HeapWords(words) <= all && Pins(sc.table, all) <= sc.u * sc.seeds
      requires ScanInv(full, sc, Now(seen0), h.marked, [], false)
      modifies t`marked, h`marked, h`pinned, m`stackSize, m.stack
      ensures t.Valid()
      ensures ScanInv(full, sc, Now(seen0 + HeapWords(words)), old(h.marked),
                if full then NewHits(sc.table, words, HeapWords(words), seen0) else [], dropped)
      ensures full && Roomy(sc, f) && MarksClosed(h.shells, h.mem, sc.u, old(h.marked)) ==>
              MarksClosed(h.shells, h.mem, sc.u, h.marked)
    {
      hide Graph, ScanInv, GoPost, GoExact, Pins, MarkedTable, DerefTable.Valid, DerefTable.Contents, MarksClosed,
           Roomy, NewHits, NewHit, Found, SeenOf;
      ghost var roomy := full && Roomy(sc, f) && MarksClosed(h.shells, h.mem, sc.u, h.marked);
      ghost var m0, seen, hw, hits: seq<int> := h.marked, seen0, HeapWords(words), [];
      NoHits(sc.table, words, hw, seen0);
      dropped := false;
      var i := 0;
      while i < |words|
        invariant 0 <= i <= |words| && t.Valid() && HeapWords(words) == hw && seen == SeenOf(words[..i], hw, seen0)
        invariant ScanInv(full, sc, Now(seen), m0, hits, dropped)
        invariant hits == if full then NewHits(sc.table, words[..i], hw, seen0) else []
        invariant roomy ==> MarksClosed(h.shells, h.mem, sc.u, h.marked)
      {
        var w := words[i];
        NextHits(sc.table, words, hw, seen0, i);
        if h.IsHeapPointer(w) {
          assert w in hw;
          ghost var p := Now(seen);
          var newly, hit := t.MarkRoot(w);
          if newly && full {
            NewPin(full, sc, p, t.Contents(), m0, hits, dropped, w, hit, all);
            var over := m.Go(h, BlockOf(hit), true, sc.u);
            ScanNew(sc, p, Now(seen + {w}), w, hit, m0, hits, dropped, over);
            if roomy { RoomyGo(sc, f, BlockOf(hit), p.marked, h.marked, over); }
            hits, dropped := hits + [BlockOf(hit)], dropped || over;
          } else {
            ScanOld(full, sc, p, Now(seen + {w}), w, newly, hit, m0, hits, dropped);
          }
          seen := seen + {w};
        }
        i := i + 1;
      }
      AllSeen(words, hw, seen0);
      assert words[..i] == words;
    }

    /** The heap words of the stacks of some threads. */
    ghost function AllWords(stacks: seq<seq<int>>): set<int>
      reads h`firstPage, h`pool, h`big, h`mem
    {
      set i, w | 0 <= i < |stacks| && w in HeapWords(stacks[i]) :: w
    }

    lemma MoreWords(stacks: seq<seq<int>>, i: nat)
      requires i < |stacks|
      ensures AllWords(stacks[..i + 1]) == AllWords(stacks[..i]) + HeapWords(stacks[i])
      ensures HeapWords(stacks[i]) <= AllWords(stacks)
    {
    }

    lemma NoWords(stacks: seq<seq<int>>)
      ensures AllWords(stacks[..0]) == {}
    {
    }

    /** One thread's turn: its stack, its registered roots, and the recovery. */
    method MarkThread(words: seq<int>, i: nat, keep: bool, lost: bool, ghost sc: Scene, ghost all: set<int>,
                      ghost seen: set<int>, ghost m0: set<int>, ghost f: nat) returns (lost': bool)
      requires t.Valid() && m.stack.Length >= 1 && m.stack != t.roots && i < |h.roots| && h.Supply(h.firstPage)
      requires sc.shells == h.shells && sc.mem == h.mem && sc.cap == m.stack.Length && Graph(h.shells, h.mem, sc.u, {})
      requires NULL !in sc.u && sc.u <= h.Blocks() && m0 !! h.Blocks() && HeapWords(words) <= all
      requires Pins(sc.table, all) <= sc.u * sc.seeds
      requires ChainInto(h.roots[i], sc.u) && ChainTargets(h.roots[i]) <= sc.seeds
      requires RootTargets(h.roots[..i + 1]) == RootTargets(h.roots[..i]) + ChainTargets(h.roots[i])
      requires PhaseInv(sc, Now(seen), h.roots[..i], m0, lost)
      modifies t`marked, h`marked, h`pinned, m`stackSize, m.stack
      ensures t.Valid() && (keep && !lost ==> !lost')
      ensures PhaseInv(sc, Now(seen + HeapWords(words)), h.roots[..i + 1], m0, lost')
      ensures ThreadExact(sc, keep, NewHits(sc.table, words, HeapWords(words), seen), TargetSeq(h.roots[i]),
              old(h.marked), h.marked)
      ensures Roomy(sc, f) && MarksClosed(h.shells, h.mem, sc.u, old(h.marked)) ==>
              MarksClosed(h.shells, h.mem, sc.u, h.marked)
    {
      hide Graph, Pins, MarkedTable, DerefTable.Valid, DerefTable.Contents, Heap.Supply, Sound, MarksClosed, NewHits,
           RootTargets, ScanInv, PhaseInv, MarkStep, GoAll, TargetSeq, Roomy;
      ghost var m1, seen', hits := h.marked, seen + HeapWords(words), NewHits(sc.table, words, HeapWords(words), seen);
      PhaseScan(sc, Now(seen), h.roots[..i], m0, lost);
      var dropped := MarkStack(words, true, sc, all, seen, f);
      ghost var p := Now(seen');
      ScanMarks(sc, p, m1, hits, dropped);
      var overflow := m.MarkRoots(h, h.roots[i], sc.u, sc.seeds);
      ghost var p' := Now(seen');
      PhaseThread(sc, p, p', h.Blocks(), h.roots, i, m0, m1, hits, lost, dropped, overflow);
      if overflow || (keep && dropped) {
        m.Recover(h, true, sc.u, sc.seeds);
        PhaseRecovered(sc, p', Now(seen'), h.roots[..i + 1], m0);
        lost' := false;
      } else {
        lost' := lost || dropped;
      }
      assert GoAll(sc.shells, sc.mem, sc.cap, hits, m1, p.marked, dropped);
      assert GoAll(sc.shells, sc.mem, sc.cap, TargetSeq(h.roots[i]), p.marked, p'.marked, overflow);
    }

    /** The marking part of mark_and_sweep: for each thread its stack, its registered roots, and the
        recovery. With `keep` the flags of the traversals from pinned objects count as overflow;
        without it they are dropped, as the source does, and `lost` says that one was and nothing has
        made up for it. A stack that is large enough does not care. `ms` are the marks before each
        thread's turn and at the end: what exactly the code does, in either reading. */
    method MarkPhase(stacks: seq<seq<int>>, keep: bool, ghost sc: Scene, ghost f: nat)
                     returns (lost: bool, ghost ms: seq<set<int>>)
      requires t.Valid() && m.stack.Length >= 1 && m.stack != t.roots && |stacks| == |h.roots|
      requires h.Supply(h.firstPage) && h.marked !! h.Blocks() && Graph(h.shells, h.mem, h.Live(), {})
               && RootsInto(h.roots, h.Live())
      requires Unmarked(t.Contents()) && EntriesOk(h.shells, h.mem, h.Live(), t.Contents())
      requires sc == Scenery(h.Live(), RootTargets(h.roots) + Pins(t.Contents(), AllWords(stacks)))
      modifies t`marked, h`marked, h`pinned, m`stackSize, m.stack
      ensures t.Valid() && MarkedTable(sc.table, t.Contents(), AllWords(stacks))
      ensures h.pinned == old(h.pinned) + Pins(sc.table, AllWords(stacks))
              && old(h.marked) <= h.marked <= old(h.marked) + sc.u
      ensures sc.seeds <= h.marked && Sound(h.shells, h.mem, sc.u, sc.seeds, h.marked)
      ensures !lost ==> MarksClosed(h.shells, h.mem, sc.u, h.marked)
      ensures keep ==> !lost
      ensures Roomy(sc, f) ==> MarksClosed(h.shells, h.mem, sc.u, h.marked)
      ensures |ms| == |stacks| + 1 && ms[0] == old(h.marked) && ms[|stacks|] == h.marked
      ensures forall i :: 0 <= i < |stacks| ==>
                ThreadExact(sc, keep, HitsOf(sc.table, stacks, i), TargetSeq(h.roots[i]), ms[i], ms[i + 1])
    {
      hide Graph, RootsInto, Pins, MarkedTable, DerefTable.Valid, DerefTable.Contents, Heap.Supply, Sound, MarksClosed,
           RootTargets, ScanInv, PhaseInv, EntriesOk, MarkStep, ThreadExact, Roomy, TargetSeq, NewHits;
      ghost var m0, all := h.marked, AllWords(stacks);
      ghost var seen: set<int> := {};
      ms := [h.marked];
      BlocksMapped(h);
      PinsLive(h.shells, h.mem, sc.u, sc.table, all);
      NoWords(stacks);
      PhaseStart(sc, Now(seen), h.roots, h.Blocks());
      FreshClosed(sc, h.marked, h.Blocks());
      lost := false;
      var i := 0;
      while i < |stacks|
        invariant 0 <= i <= |stacks| && t.Valid() && AllWords(stacks) == all && seen == AllWords(stacks[..i])
        invariant PhaseInv(sc, Now(seen), h.roots[..i], m0, lost) && (keep ==> !lost)
        invariant Roomy(sc, f) ==> MarksClosed(h.shells, h.mem, sc.u, h.marked)
        invariant |ms| == i + 1 && ms[0] == m0 && ms[i] == h.marked
        invariant forall j :: 0 <= j < i ==>
                    ThreadExact(sc, keep, HitsOf(sc.table, stacks, j), TargetSeq(h.roots[j]), ms[j], ms[j + 1])
      {
        MoreWords(stacks, i);
        ThreadRoots(h.roots, sc.u, i);
        lost := MarkThread(stacks[i], i, keep, lost, sc, all, seen, m0, f);
        seen := seen + HeapWords(stacks[i]);
        ms := ms + [h.marked];
        i := i + 1;
      }
      assert h.roots[..i] == h.roots && stacks[..i] == stacks;
      PhaseEnd(sc, Now(seen), h.roots, m0, lost);
    }

    /** The objects that the stack of thread i pins, in order. */
    ghost function HitsOf(table: seq<seq<Entry>>, stacks: seq<seq<int>>, i: int): seq<int>
      requires 0 <= i < |stacks|
      reads h`firstPage, h`pool, h`big, h`mem
    {
      NewHits(table, stacks[i], HeapWords(stacks[i]), AllWords(stacks[..i]))
    }

    /** What always holds between operations: the heap's own invariant, with all flags clear, and every
        registered entry names a live object, by its present address and extent. */
    ghost predicate Sane()
      reads this, h, h.freeBlocks, t, t.roots
    {
      && h.Valid() && t.Valid() && m.stack.Length >= 1 && m.stack != t.roots
      && Unmarked(t.Contents()) && EntriesOk(h.shells, h.mem, h.Live(), t.Contents())
    }

    /** What the collector relies on: besides, the heap is an object graph. */
    ghost predicate Ready()
      reads this, h, h.freeBlocks, t, t.roots
    {
      Sane() && h.LiveOk({})
    }

    /** The heap, the roots, the table and the words of the stacks as they are now. */
    ghost function Snapshot(stacks: seq<seq<int>>): Before
      reads h, t
    {
      Before(h.shells, h.mem, h.roots, h.Live(), h.lay, h.firstPage, Elems(h.big), t.Contents(), AllWords(stacks))
    }

    /** No live big block has a field that points to a block on a page: what a program must ensure
        for collections to leave all fields right, since sweep does not fix big blocks. */
    ghost predicate BigToBig()
      reads h
    {
      BigOnly(h.shells, h.mem, h.Live(), Elems(h.big))
    }

    /** A registered start address on some stack pins its object: no other range holds it. */
    lemma StartOnStackPins(stacks: seq<seq<int>>, i: int, k: int)
      requires Ready() && 0 <= i < |t.Contents()| && 0 <= k < |t.Contents()[i]|
               && OnSomeStack(stacks, t.Contents()[i][k].p)
      ensures var t0, p, seen := t.Contents(), t.Contents()[i][k].p, AllWords(stacks);
              BlockOf(p) in Pins(t0, seen) && exists j :: 0 <= j < |t0[i]| && t0[i][j].p == p && HitAt(t0, seen, i, j)
    {
      hide Pins, HitAt, Hash, Heap.LiveOk, Heap.Supply, DerefTable.Valid, DerefTable.Contents, IndexEmpty, Unmarked;
      var t0, e, seen := t.Contents(), t.Contents()[i][k], AllWords(stacks);
      InOwnBucket(t);
      assert EntryOk(h.shells, h.mem, h.Live(), e);
      ObjectIsHeapPointer(h, BlockOf(e.p));
      var s :| 0 <= s < |stacks| && e.p in stacks[s];
      assert e.p in HeapWords(stacks[s]);
      Product(h.shells[h.mem[BlockOf(e.p)][1]].size, Value(h.mem[BlockOf(e.p)][2]));
      forall j | 0 <= j < |t0[i]| && Contains(t0[i][j], e.p)
        ensures t0[i][j].p == e.p
      {
        assert EntryOk(h.shells, h.mem, h.Live(), t0[i][j]);
        RangesApart(h, t0[i][j], e);
      }
      StartAddressPins(t0, seen, i, k);
    }

    /** A stack word in the range of a registered object, in the object's bucket, pins it. */
    lemma TouchPins(stacks: seq<seq<int>>, i: int, k: int)
      requires Ready() && 0 <= i < |t.Contents()| && 0 <= k < |t.Contents()[i]| && TouchedBy(t.Contents(), stacks, i, k)
      ensures StartPinned(t.Contents(), AllWords(stacks), Pins(t.Contents(), AllWords(stacks)), i, t.Contents()[i][k].p)
    {
      hide Heap.LiveOk, Heap.Supply, DerefTable.Valid, DerefTable.Contents, IndexEmpty, Unmarked, EntriesOk;
      var t0, e, seen := t.Contents(), t.Contents()[i][k], AllWords(stacks);
      RegisteredApart(h, t0);
      assert EntryOk(h.shells, h.mem, h.Live(), e) by { EntryIs(h.shells, h.mem, h.Live(), t0, i, k); }
      var s, j :| 0 <= s < |stacks| && 0 <= j < |stacks[s]| && Touches(t0, stacks[s][j], i, k);
      var w := stacks[s][j];
      RangeIsHeap(h, BlockOf(e.p), w);
      assert w in HeapWords(stacks[s]);
      assert w in seen;
      FirstFound(t0, seen, w, i, k);
    }

    /** Exactly those objects are pinned that have a stack word in their range, in their own bucket. */
    lemma PinsAre(stacks: seq<seq<int>>)
      requires Ready()
      ensures forall b :: b in Pins(t.Contents(), AllWords(stacks)) <==> TouchedObject(t.Contents(), stacks, b)
    {
      hide Heap.LiveOk, Heap.Supply, DerefTable.Valid, DerefTable.Contents, IndexEmpty, Unmarked, EntriesOk, Pins,
           TouchedBy, Touches;
      var t0, seen := t.Contents(), AllWords(stacks);
      RegisteredApart(h, t0);
      forall b
        ensures b in Pins(t0, seen) <==> TouchedObject(t0, stacks, b)
      {
        PinsExactly(t0, seen, b);
        if b in Pins(t0, seen) {
          var w, i, k :| w in seen && 0 <= i < |t0| && 0 <= k < |t0[i]| && BlockOf(t0[i][k].p) == b
              && Touches(t0, w, i, k);
          SeenOnStack(stacks, w, t0, i, k);
        }
        if TouchedObject(t0, stacks, b) {
          var i, k :| 0 <= i < |t0| && 0 <= k < |t0[i]| && t0[i][k].p == b + BLOCK + META
              && TouchedBy(t0, stacks, i, k);
          TouchPins(stacks, i, k);
        }
      }
    }

    /** Exactly those entries are found that are touched and the first of their object in the bucket. */
    lemma EntriesFound(stacks: seq<seq<int>>, i: int, k: int)
      requires Ready() && 0 <= i < |t.Contents()| && 0 <= k < |t.Contents()[i]|
      ensures var t0 := t.Contents();
              HitAt(t0, AllWords(stacks), i, k) <==>
              TouchedBy(t0, stacks, i, k) && forall j :: 0 <= j < k ==> t0[i][j].p != t0[i][k].p
    {
      hide Heap.LiveOk, Heap.Supply, DerefTable.Valid, DerefTable.Contents, IndexEmpty, Unmarked, EntriesOk, Touches,
           TouchedBy, Finds, FirstHolder, Hash;
      var t0, seen := t.Contents(), AllWords(stacks);
      RegisteredApart(h, t0);
      RangesOrdered(h, t0);
      if HitAt(t0, seen, i, k) {
        var w :| w in seen && HitAt(t0, {w}, i, k);
        FoundExactly(t0, w, i, k);
        SeenOnStack(stacks, w, t0, i, k);
      }
      if TouchedBy(t0, stacks, i, k) && forall j :: 0 <= j < k ==> t0[i][j].p != t0[i][k].p {
        TouchPins(stacks, i, k);
        var j :| 0 <= j < |t0[i]| && t0[i][j].p == t0[i][k].p && HitAt(t0, seen, i, j);
        var w :| w in seen && HitAt(t0, {w}, i, j);
        FoundExactly(t0, w, i, j);
        assert j == k;
      }
    }

    lemma SeenOnStack(stacks: seq<seq<int>>, w: int, t0: seq<seq<Entry>>, i: int, k: int)
      requires w in AllWords(stacks) && 0 <= i < |t0| && 0 <= k < |t0[i]| && Touches(t0, w, i, k)
      ensures TouchedBy(t0, stacks, i, k)
    {
      hide Touches;
      var s :| 0 <= s < |stacks| && w in HeapWords(stacks[s]);
      var j :| 0 <= j < |stacks[s]| && stacks[s][j] == w;
    }

    /** mark_and_sweep, with every overflow flag kept, or as written on a stack that is large enough.
        `marks` are the survivors, at their old addresses: exactly the objects that the registered roots
        and the pinned objects reach. `moved` is where those went that had to go: the survivors on pages
        without a pinned object. */
    method FullGc(stacks: seq<seq<int>>, keep: bool, ghost f: nat)
      returns (ghost marks: set<int>, ghost pins: set<int>, ghost moved: map<int, int>, ghost order: seq<int>)
      requires Ready() && |stacks| == |h.roots| && (keep || Roomy(Scenery(h.Live(), {}), f))
      modifies h, h.freeBlocks, t, t.roots, m, m.stack
      ensures h.Valid() && h.shells == old(h.shells) && |h.roots| == old(|h.roots|)
      ensures pins == old(Pins(t.Contents(), AllWords(stacks))) && pins <= marks <= old(h.Live())
      ensures forall b :: b in pins <==> TouchedObject(old(t.Contents()), stacks, b)
      ensures forall b :: b in marks <==> ReachedFrom(old(h.shells), old(h.mem), old(RootTargets(h.roots)) + pins, b)
      ensures h.Live() == Relocated(moved, marks) && moved.Keys <= marks - pins
      ensures moved.Keys == Movable(old(h.lay), marks, pins, old(h.firstPage)) && Images(moved) !! marks
      ensures forall b :: b in moved <==> b in marks && OffPinnedPages(old(h.lay), old(h.firstPage), pins, b)
      ensures Isomorphic(h.shells, old(h.mem), h.mem, marks, Elems(h.big), moved)
      ensures Elems(h.big) == Elems(old(h.big)) * marks
      ensures var stay := Stay(old(h.lay), old(h.firstPage), pins);
              stay <= h.firstPage && ToSpaceOk(old(h.mem), moved, order, h.firstPage[|stay|..])
      ensures h.roots == ForwardAll(moved, old(h.roots)) && RootsInto(h.roots, h.Live())
      ensures RootsFollow(moved, old(h.roots), h.roots)
      ensures t.Valid() && Cleaned(old(t.Contents()), old(AllWords(stacks)), t.Contents())
      ensures Unmarked(t.Contents()) && EntriesOk(h.shells, h.mem, h.Live(), t.Contents())
      ensures h.LiveOk({}) <==> BigFieldsPinned(h.shells, old(h.mem), marks, Elems(old(h.big)), old(h.lay),
              old(h.firstPage), pins)
      ensures old(BigToBig()) ==> Ready() && BigToBig()
      ensures forall i, k :: 0 <= i < |old(t.Contents())| && 0 <= k < |old(t.Contents())[i]| ==>
                OnSomeStack(stacks, old(t.Contents())[i][k].p) || TouchedBy(old(t.Contents()), stacks, i, k) ==>
                StaysPut(old(t.Contents())[i][k].p, moved, h.Live(), t.Contents()[i])
    {
      hide Graph, RootsInto, Pins, MarkedTable, DerefTable.Valid, DerefTable.Contents, Heap.Supply, Sound,
           MarksClosed, RootTargets, EntriesOk, Unmarked, Relocated, Isomorphic, Movable, IndexEmpty, PageBlocks,
           ForwardAll, HitEntries, BigFieldsStay, BigFieldsPinned, MarksOk, ToSpaceOk, Survivors, Images, BigOnly,
           Roomy, ThreadExact, RootsFollow, TouchedBy, TouchedObject, OnSomeStack,
           OffPinnedPages;
      ghost var u, t0, words := h.Live(), t.Contents(), AllWords(stacks);
      ghost var mem0, roots0, big0, lay0, pages0 := h.mem, h.roots, h.big, h.lay, h.firstPage;
      pins := Pins(t0, words);
      BigOffPages(h);
      ghost var sc := Scenery(u, RootTargets(h.roots) + pins);
      RoomySeeds(Scenery(u, {}), sc, f);
      PinsLive(h.shells, h.mem, u, t0, words);
      PinsAre(stacks);
      forall i, k | 0 <= i < |t0| && 0 <= k < |t0[i]|
                    && (OnSomeStack(stacks, t0[i][k].p) || TouchedBy(t0, stacks, i, k))
        ensures StartPinned(t0, words, pins, i, t0[i][k].p)
      {
        if OnSomeStack(stacks, t0[i][k].p) { StartOnStackPins(stacks, i, k); } else { TouchPins(stacks, i, k); }
      }
      ghost var ms;
      var lost;
      lost, ms := MarkPhase(stacks, keep, sc, f);
      marks := h.marked * h.Blocks();
      ghost var t1, marked1, pinned1 := t.Contents(), h.marked, h.pinned;
      MarksReady(h.shells, h.mem, h.roots, u, h.Blocks(), h.dead, Elems(h.big), old(h.marked), h.marked, old(h.pinned),
                 h.pinned, pins);
      MovedFacts(h, old(h.pinned), pins);
      moved, order := SweepHeap(h);
      BigSurvivors(big0, h.big, marked1, pinned1, pages0, lay0, pins, old(h.pinned), marks);
      t.Sweep();
      TableSwept(t0, t1, t.Contents(), words);
      MovedExactly(lay0, pages0, marks, pins);
      Survived(h, moved, marks);
      SweptRoots(moved, roots0, marks);
      ForwardLength(moved, roots0);
      EntriesKept(h.shells, mem0, h.mem, u, marks, Elems(h.big), moved, t0, t.Contents(), words);
      SweptGraph(h.shells, mem0, h.mem, marks, Elems(h.big), moved);
      BigFieldsSame(h.shells, mem0, marks, Elems(big0), Elems(h.big), lay0, pages0, pins, moved);
      if old(BigToBig()) {
        BigKept(h.shells, mem0, h.mem, u, marks, Elems(big0), Elems(h.big), moved);
      }
      forall i, k | 0 <= i < |t0| && 0 <= k < |t0[i]|
                    && (OnSomeStack(stacks, t0[i][k].p) || TouchedBy(t0, stacks, i, k))
        ensures StaysPut(t0[i][k].p, moved, h.Live(), t.Contents()[i])
      {
        StartStays(t0, t.Contents()[i], words, pins, marks, moved, i, t0[i][k].p);
      }
    }

    /** clean_deref_roots, which gc(false) runs: entries that no stack word finds are dropped. */
    method CleanDerefRoots(stacks: seq<seq<int>>)
      requires Ready()
      modifies t, t.roots, h`marked, h`pinned, m, m.stack
      ensures Ready() && unchanged(h) && Cleaned(old(t.Contents()), old(AllWords(stacks)), t.Contents())
    {
      hide Graph, RootsInto, Pins, MarkedTable, DerefTable.Valid, DerefTable.Contents, Heap.Supply, Heap.LiveOk,
           EntriesOk, Unmarked, HitEntries, Survivors, ScanInv, IndexEmpty;
      ghost var u, t0, words, m0 := h.Live(), t.Contents(), AllWords(stacks), h.marked;
      ghost var sc := Scenery(u, u);
      ghost var seen: set<int> := {};
      NothingSeen(t0);
      ScanStart(false, sc, Now(seen));
      NoWords(stacks);
      PinsLive(h.shells, h.mem, u, t0, words);
      BlocksMapped(h);
      LiveGraph(h);
      var i := 0;
      while i < |stacks|
        invariant 0 <= i <= |stacks| && t.Valid() && AllWords(stacks) == words && seen == AllWords(stacks[..i])
        invariant ScanInv(false, sc, Now(seen), m0, [], false)
        invariant h.marked == m0 && h.pinned == sc.pins0
      {
        MoreWords(stacks, i);
        var dropped := MarkStack(stacks[i], false, sc, words, seen, 0);
        seen := seen + HeapWords(stacks[i]);
        CleanFacts(sc, Now(seen), m0, [], dropped);
        i := i + 1;
      }
      assert stacks[..i] == stacks;
      ghost var t1 := t.Contents();
      CleanFacts(sc, Now(seen), m0, [], false);
      t.Sweep();
      TableSwept(t0, t1, t.Contents(), words);
      EntriesLeft(h.shells, h.mem, u, t0, t.Contents(), words);
    }

    /** operator-> on a pointer to object b: the object is registered, at its address and with its
        extent; the table may ask for a cleaning, which gc refuses inside a constructor. */
    method Dereference(b: int, stacks: seq<seq<int>>, nested: bool) returns (cleaned: bool, ghost with: seq<seq<Entry>>)
      requires Ready() && b in h.Live()
      modifies t, t.roots, h`marked, h`pinned, m, m.stack
      ensures Ready() && unchanged(h)
      ensures cleaned <==>
              !nested && old(t.count) + 1 == old(t.totalCount)
              && old(t.expandCount) + 1 == old(t.expandFactor)
      ensures b in h.mem && MetaOk(h.shells, h.mem[b])
      ensures WithEntry(old(t.Contents()), with, b + BLOCK + META,
              b + BLOCK + META + h.shells[h.mem[b][1]].size * Value(h.mem[b][2]))
      ensures !cleaned ==> t.Contents() == with
      ensures cleaned ==> Cleaned(with, AllWords(stacks), t.Contents())
      ensures OnSomeStack(stacks, b + BLOCK + META) ==> Registered(t.Contents(), b + BLOCK + META)
    {
      hide Graph, RootsInto, DerefTable.Valid, DerefTable.Contents, Heap.Supply, Heap.LiveOk, EntriesOk, Unmarked,
           IndexEmpty, Hash;
      LiveGraph(h);
      LiveMeta(h.shells, h.mem, h.Live(), b);
      var p, size := b + BLOCK + META, h.shells[h.mem[b][1]].size * Value(h.mem[b][2]);
      Product(h.shells[h.mem[b][1]].size, Value(h.mem[b][2]));
      BlocksMapped(h);
      InOwnBucket(t);
      HashInside(p, |t.Contents()|);
      ghost var t0 := t.Contents();
      var needGc := t.Register(p, size);
      EntryAdded(h.shells, h.mem, h.Live(), t0, t.Contents(), p, p + size);
      cleaned, with := needGc && !nested, t.Contents();
      if cleaned {
        ghost var t1 := t.Contents();
        if OnSomeStack(stacks, p) {
          StartOnStackPins(stacks, Hash(p, |t1|), 0);
        }
        ghost var words := AllWords(stacks);
        CleanDerefRoots(stacks);
        if OnSomeStack(stacks, p) {
          StillRegistered(t1, t.Contents(), words, Hash(p, |t1|), p);
        }
      }
    }

    /** Between gcmalloc and gc_new: as always, but for the new block b, which has no meta yet. */
    ghost predicate Pending(b: int, n: nat)
      reads this, h, h.freeBlocks, t, t.roots
    {
      && h.Valid() && t.Valid() && m.stack.Length >= 1 && m.stack != t.roots
      && Unmarked(t.Contents()) && EntriesOk(h.shells, h.mem, h.Live() - {b}, t.Contents())
      && b in h.Live() && b in h.mem && h.mem[b] == Zeros(n)
    }

    /** As BigToBig, but for the new block b. */
    ghost predicate BigToBigBut(b: int)
      reads h
    {
      BigOnly(h.shells, h.mem, h.Live() - {b}, Elems(h.big))
    }

    /** A block of s bytes is an ordinary one, and neither the last page nor the free list has room for it. */
    predicate NeedsPages(s: int)
      reads h
    {
      s <= BIG_BLOCK_THRESHOLD && h.firstPage != [] && !h.RoomFor(s) && h.pool == []
    }

    /** The allocation part of gcmalloc, between collections. */
    method Request(s: nat, expand: bool) returns (b: int)
      requires Sane()
      modifies h
      ensures h.shells == old(h.shells) && h.roots == old(h.roots)
      ensures b == NULL <==> !expand && old(NeedsPages(Align(s)))
      ensures b == NULL ==> unchanged(h)
      ensures b != NULL ==> Pending(b, Align(s) / 8) && b !in old(h.Live()) && h.Live() == old(h.Live()) + {b}
      ensures b != NULL ==> (old(h.LiveOk({})) ==> h.LiveOk({b})) && (old(BigToBig()) ==> BigToBigBut(b))
      ensures b != NULL ==> h.mem == old(h.mem)[b := h.mem[b]]
      ensures b != NULL ==> h.big == if Align(s) > BIG_BLOCK_THRESHOLD then [b] + old(h.big) else old(h.big)
      ensures b != NULL ==> (b in h.big <==> Align(s) > BIG_BLOCK_THRESHOLD)
    {
      hide Graph, RootsInto, DerefTable.Valid, DerefTable.Contents, Heap.Supply, Heap.LiveOk, EntriesOk, Unmarked,
           IndexEmpty, BigOnly, PageBlocks;
      ghost var live0 := h.Live();
      b := h.Request(s, expand);
      if b != NULL {
        assert h.Live() - {b} == live0;
        ObjectsFrame(h.shells, old(h.mem), h.mem, live0, live0, t.Contents());
        if old(BigToBig()) {
          BigFrame(h.shells, old(h.mem), h.mem, live0, live0, Elems(old(h.big)), Elems(h.big), b);
        }
      }
    }

    /** gcmalloc: a collection is tried only if the block would need a new page, and does nothing
        inside a constructor (`nested`), where gc refuses; then the heap may grow. */
    method Gcmalloc(s: nat, stacks: seq<seq<int>>, nested: bool)
      returns (b: int, ghost collected: bool, ghost survivors: set<int>, ghost moved: map<int, int>)
      requires Ready() && |stacks| == |h.roots|
      modifies h, h.freeBlocks, t, t.roots, m, m.stack
      ensures Pending(b, Align(s) / 8) && |h.roots| == old(|h.roots|) && h.shells == old(h.shells)
      ensures (collected ==> FieldsSurvive(old(Snapshot(stacks)), survivors)) ==> h.LiveOk({b})
      ensures old(BigToBig()) ==> h.LiveOk({b}) && BigToBigBut(b)
      ensures collected <==> !nested && old(NeedsPages(Align(s)))
      ensures collected ==> Collected(old(Snapshot(stacks)), survivors, moved)
      ensures collected ==> Cleaned(old(t.Contents()), old(AllWords(stacks)), t.Contents())
      ensures collected ==> OnStackStay(old(Snapshot(stacks)), stacks, moved, h.Live(), t.Contents())
      ensures collected ==> Elems(h.big) == Elems(old(h.big)) * survivors
      ensures !collected ==> moved == map[] && survivors == old(h.Live()) && t.Contents() == old(t.Contents())
      ensures !collected ==> h.roots == old(h.roots) && h.mem == old(h.mem)[b := h.mem[b]]
      ensures !collected ==> b !in old(h.Live()) && h.Live() == old(h.Live()) + {b}
      ensures !collected ==> h.big == if Align(s) > BIG_BLOCK_THRESHOLD then [b] + old(h.big) else old(h.big)
      ensures b in h.big <==> Align(s) > BIG_BLOCK_THRESHOLD
      ensures Others(old(Snapshot(stacks)), h.mem, h.roots, h.Live(), b, survivors, moved)
    {
      hide Graph, RootsInto, DerefTable.Valid, DerefTable.Contents, Heap.Supply, Heap.LiveOk, EntriesOk, Unmarked,
           IndexEmpty, BigOnly, PageBlocks, ForwardAll, Isomorphic, Relocated, Pins, HitEntries, RootTargets, Others,
           Movable, ReachedFrom, StaysPut, OnSomeStack, OnStackStay, BigFieldsPinned, ToSpaceOk, Images, Stay;
      ghost var before := Snapshot(stacks);
      NothingMoves(h.shells, h.mem, h.Live(), Elems(h.big), h.roots) by { LiveGraph(h); }
      collected, survivors, moved := false, h.Live(), map[];
      ghost var mem1 := h.mem;
      b := Request(s, false);
      if b == NULL {
        if !nested {
          ghost var pins, order;
          survivors, pins, moved, order := FullGc(stacks, true, 0);
          collected := true;
          StackStays(before, stacks, moved, h.Live(), t.Contents());
          IsomorphicSame(h.shells, before.mem, h.mem, survivors, Elems(h.big), before.big, moved);
        }
        ghost var live1 := h.Live();
        mem1 := h.mem;
        b := Request(s, true);
        if collected { MoreStay(before, stacks, moved, live1, h.Live(), t.Contents()); }
      }
      IsomorphicStill(h.shells, before.mem, mem1, h.mem, survivors, before.big, moved, b);
      OthersAre(before, h.mem, h.roots, h.Live(), b, survivors, moved);
    }

    /** gc_new as the collector sees it: a block from gcmalloc gets its meta and has null fields. */
    method NewObject(shell: Word, count: nat, stacks: seq<seq<int>>, nested: bool)
      returns (b: int, ghost collected: bool, ghost survivors: set<int>, ghost moved: map<int, int>)
      requires Ready() && |stacks| == |h.roots| && shell in h.shells && ShellOk(h.shells[shell])
      modifies h, h.freeBlocks, t, t.roots, m, m.stack
      ensures Sane() && |h.roots| == old(|h.roots|) && h.shells == old(h.shells)
      ensures (collected ==> FieldsSurvive(old(Snapshot(stacks)), survivors)) ==> Ready()
      ensures old(BigToBig()) ==> Ready() && BigToBig()
      ensures b in h.Live() && MetaOk(h.shells, h.mem[b]) && Succ(h.shells, h.mem[b]) == {}
      ensures h.mem[b][1] == shell && Value(h.mem[b][2]) == count
      ensures var size := META + h.shells[shell].size * count; size < 8 * |h.mem[b]| <= size + 8
      ensures var s := Align(Bytes(old(h.shells)[shell], count));
              && (collected <==> !nested && old(NeedsPages(s)))
              && (!collected ==> h.big == if s > BIG_BLOCK_THRESHOLD then [b] + old(h.big) else old(h.big))
              && (b in h.big <==> s > BIG_BLOCK_THRESHOLD)
      ensures collected ==> Collected(old(Snapshot(stacks)), survivors, moved)
      ensures collected ==> Cleaned(old(t.Contents()), old(AllWords(stacks)), t.Contents())
      ensures collected ==> OnStackStay(old(Snapshot(stacks)), stacks, moved, h.Live(), t.Contents())
      ensures collected ==> Elems(h.big) == Elems(old(h.big)) * survivors
      ensures !collected ==> moved == map[] && survivors == old(h.Live()) && t.Contents() == old(t.Contents())
      ensures !collected ==> h.roots == old(h.roots) && h.mem == old(h.mem)[b := h.mem[b]]
      ensures !collected ==> b !in old(h.Live()) && h.Live() == old(h.Live()) + {b}
      ensures Others(old(Snapshot(stacks)), h.mem, h.roots, h.Live(), b, survivors, moved)
    {
      hide Graph, RootsInto, DerefTable.Valid, DerefTable.Contents, Heap.Supply, Heap.LiveOk, EntriesOk, Unmarked,
           IndexEmpty, BigOnly, PageBlocks, Others, Succ, Collected, Cleaned, OnStackStay, FieldsSurvive;
      var s := Bytes(h.shells[shell], count);
      b, collected, survivors, moved := Gcmalloc(s, stacks, nested);
      assert Align(s) / 8 >= 3 && 8 * (Align(s) / 8) == Align(s);
      ghost var mem1 := h.mem;
      SetMeta(b, shell, count, Align(s) / 8);
      OthersStill(old(Snapshot(stacks)), mem1, h.mem, h.roots, h.Live(), b, survivors, moved);
    }

    /** The meta words of gc_new. */
    method SetMeta(b: int, shell: Word, count: nat, ghost n: nat)
      requires Pending(b, n) && n >= 3 && shell in h.shells && ShellOk(h.shells[shell])
      requires META + h.shells[shell].size * count < 8 * n
      modifies h`mem
      ensures Sane() && (old(h.LiveOk({b})) ==> Ready()) && (old(BigToBigBut(b)) ==> BigToBig())
      ensures b in h.Live() && MetaOk(h.shells, h.mem[b]) && Succ(h.shells, h.mem[b]) == {}
      ensures h.mem == old(h.mem)[b := h.mem[b]] && h.mem[b][1] == shell && Value(h.mem[b][2]) == count
      ensures |h.mem[b]| == n
    {
      hide AreasOk, PageOk, PagesOk, NoDup, Pow2, Graph, RootsInto, DerefTable.Valid, DerefTable.Contents, EntriesOk,
           Unmarked, IndexEmpty, BigOnly, PageBlocks;
      ghost var mem0 := h.mem;
      FreshObject(h.shells, shell, count, n);
      h.mem := h.mem[b := MetaWritten(h.mem[b], shell, count)];
      SameLengths(mem0, h.mem, h.hdr, h.lay, h.firstPage, Elems(h.firstPage + h.pool), h.big, h.brk);
      if old(h.LiveOk({b})) { GraphWithNew(h.shells, mem0, h.Live(), b, h.mem[b]); }
      if old(BigToBigBut(b)) { BigWithNew(h.shells, mem0, h.Live(), b, h.mem[b], Elems(h.big)); }
      ObjectsFrame(h.shells, mem0, h.mem, h.Live() - {b}, h.Live(), t.Contents());
    }

    /** A gc_ptr field of object b is assigned. */
    method SetField(b: int, k: int, w: Word)
      requires Ready() && b in h.Live() && b in h.mem && MetaOk(h.shells, h.mem[b])
      requires k in Fields(h.shells, h.mem[b]) && RootInto(w, h.Live())
      modifies h`mem
      ensures Ready() && (old(BigToBig()) && (b in h.big && !IsNullWord(w) ==> TargetOf(w) in h.big) ==> BigToBig())
      ensures 3 <= k < |old(h.mem)[b]| && h.mem == old(h.mem)[b := old(h.mem)[b][k := w]]
    {
      hide AreasOk, PageOk, PagesOk, NoDup, Pow2, Graph, RootsInto, DerefTable.Valid, DerefTable.Contents, EntriesOk,
           Unmarked, IndexEmpty, BigOnly, PageBlocks, Fields;
      ghost var mem0 := h.mem;
      FieldsInPayload(h.shells, h.mem[b]);
      h.mem := h.mem[b := h.mem[b][k := w]];
      SameLengths(mem0, h.mem, h.hdr, h.lay, h.firstPage, Elems(h.firstPage + h.pool), h.big, h.brk);
      FieldSet(h.shells, mem0, h.Live(), Elems(h.big), b, k, w);
      ObjectsFrame(h.shells, mem0, h.mem, h.Live(), h.Live(), t.Contents());
    }

    /** A thread is listed, with no roots yet. */
    method AddThread()
      requires Ready()
      modifies h`roots
      ensures Ready() && h.roots == old(h.roots) + [[]] && (old(BigToBig()) ==> BigToBig())
    {
      hide Graph, DerefTable.Valid, DerefTable.Contents, Heap.Supply, EntriesOk, Unmarked, IndexEmpty, BigOnly,
           PageBlocks;
      h.roots := h.roots + [[]];
    }

    /** create_meta: a class gets its shell. */
    method AddShell(w: Word, sh: Shell)
      requires Ready() && w !in h.shells && ShellOk(sh)
      modifies h`shells
      ensures Ready() && h.shells == old(h.shells)[w := sh] && (old(BigToBig()) ==> BigToBig())
    {
      hide RootsInto, DerefTable.Valid, DerefTable.Contents, Heap.Supply, EntriesOk, Unmarked, IndexEmpty, BigOnly,
           Graph, PageBlocks;
      MoreShells(h.shells, h.mem, h.Live(), Elems(h.big), t.Contents(), w, sh);
      h.shells := h.shells[w := sh];
    }

    /** The registered roots of a thread change: a root is registered, deleted or assigned. */
    method SetRoots(i: nat, chain: seq<Word>)
      requires Ready() && i < |h.roots| && ChainInto(chain, h.Live())
      modifies h`roots
      ensures Ready() && h.roots == old(h.roots)[i := chain] && (old(BigToBig()) ==> BigToBig())
    {
      hide Graph, DerefTable.Valid, DerefTable.Contents, Heap.Supply, EntriesOk, Unmarked, IndexEmpty, BigOnly,
           PageBlocks;
      h.roots := h.roots[i := chain];
    }
  }

  // ---------------------------------------------------------------- a full collection

  /** The first n entries of bucket i that some word has found, as they were registered. */
  ghost function HitEntries(t: seq<seq<Entry>>, seen: set<int>, i: int, n: nat): seq<Entry>
    requires 0 <= i < |t| && n <= |t[i]|
  {
    if n == 0 then []
    else HitEntries(t, seen, i, n - 1) + (if HitAt(t, seen, i, n - 1)
      then [Entry(t[i][n - 1].p, t[i][n - 1].end, false)] else [])
  }

  lemma {:induction false} HitsSurvive(t0: seq<seq<Entry>>, es: seq<Entry>, seen: set<int>, i: int, n: nat)
    requires 0 <= i < |t0| && MarkedBucket(t0, es, seen, i) && n <= |es|
    ensures Survivors(es[..n]) == HitEntries(t0, seen, i, n)
  {
    if n > 0 {
      HitsSurvive(t0, es, seen, i, n - 1);
      assert es[..n][..n - 1] == es[..n - 1] && es[..n][n - 1] == es[n - 1];
    }
  }

  lemma {:induction false} HitsOnly(t: seq<seq<Entry>>, seen: set<int>, i: int, n: nat)
    requires 0 <= i < |t| && n <= |t[i]|
    ensures forall e :: e in HitEntries(t, seen, i, n) ==>
            !e.marked && exists k :: 0 <= k < n && HitAt(t, seen, i, k) && e == Entry(t[i][k].p, t[i][k].end, false)
    ensures forall k :: 0 <= k < n && HitAt(t, seen, i, k) ==>
            Entry(t[i][k].p, t[i][k].end, false) in HitEntries(t, seen, i, n)
  {
    if n > 0 {
      HitsOnly(t, seen, i, n - 1);
      hide HitAt;
    }
  }

  lemma TableSwept(t0: seq<seq<Entry>>, t1: seq<seq<Entry>>, t2: seq<seq<Entry>>, seen: set<int>)
    requires MarkedTable(t0, t1, seen) && |t2| == |t1| && forall i :: 0 <= i < |t2| ==> t2[i] == Survivors(t1[i])
    ensures Cleaned(t0, seen, t2)
  {
    hide Survivors, HitEntries;
    forall i | 0 <= i < |t2|
      ensures t2[i] == HitEntries(t0, seen, i, |t0[i]|)
    {
      assert MarkedBucket(t0, t1[i], seen, i);
      HitsSurvive(t0, t1[i], seen, i, |t1[i]|);
      assert t1[i][..|t1[i]|] == t1[i];
    }
  }

  /** The marks meet what sweep relies on. */
  lemma MarksReady(shells: Shells, mem: Memory, roots: seq<seq<Word>>, u: set<int>, blocks: set<int>, dead: set<int>,
                   big: set<int>,
                   m0: set<int>, marked: set<int>, p0: set<int>, pinned: set<int>, pins: set<int>)
    requires u == blocks - dead && Graph(shells, mem, u, {}) && RootsInto(roots, u) && dead !! big
    requires m0 !! blocks && m0 <= marked <= m0 + u && p0 !! blocks && pinned == p0 + pins
    requires RootTargets(roots) + pins <= marked && pins <= u
    requires Sound(shells, mem, u, RootTargets(roots) + pins, marked) && MarksClosed(shells, mem, u, marked)
    ensures MarksOk(shells, mem, roots, blocks, big, marked, pinned, dead)
    ensures Graph(shells, mem, marked * blocks, {}) && RootsInto(roots, marked * blocks)
    ensures forall b :: b in marked * blocks <==> ReachedFrom(shells, mem, RootTargets(roots) + pins, b)
    ensures pins <= marked * blocks <= u
  {
    var marks, seeds := marked * blocks, RootTargets(roots) + pins;
    hide PayloadOk, MetaOk, ReachedFrom;
    assert marks <= u && marks == marked * u;
    forall b | b in marks
      ensures b in mem && PayloadOk(shells, mem[b]) && MetaOk(shells, mem[b]) && Succ(shells, mem[b]) <= marks
    {
      assert b in u - {};
    }
    forall i, j | 0 <= i < |roots| && 0 <= j < |roots[i]|
      ensures RootInto(roots[i][j], marks)
    {
      RootMarked(roots, u, marked, i, j);
    }
    RootTargetsIn(roots, u);
    assert seeds <= marks;
    ClosedIsReached(shells, mem, seeds, marks);
  }

  lemma RootMarked(roots: seq<seq<Word>>, u: set<int>, marked: set<int>, i: nat, j: nat)
    requires i < |roots| && j < |roots[i]| && RootsInto(roots, u) && RootTargets(roots) <= marked
    ensures RootInto(roots[i][j], marked * u)
  {
    assert RootInto(roots[i][j], u);
    if !IsNullWord(roots[i][j]) {
      assert TargetOf(roots[i][j]) in ChainTargets(roots[i]);
      assert TargetOf(roots[i][j]) in RootTargets(roots);
    }
  }

  lemma RootTargetsIn(roots: seq<seq<Word>>, u: set<int>)
    requires RootsInto(roots, u)
    ensures RootTargets(roots) <= u
  {
  }

  /** What will be moved: marked blocks of pages without a pinned object. Pins of blocks that were there
      no more when the collection began do not count. */
  lemma MovedFacts(h: Heap, pinned0: set<int>, pins: set<int>)
    requires h.Supply(h.firstPage) && h.pinned == pinned0 + pins && pinned0 !! h.Blocks()
    ensures Movable(h.lay, h.marked, h.pinned, h.firstPage) == Movable(h.lay, h.marked * h.Blocks(), pins, h.firstPage)
    ensures var movable := Movable(h.lay, h.marked, h.pinned, h.firstPage);
            movable <= (h.marked * h.Blocks()) - pins && movable !! Elems(h.big)
  {
    var ps, movable := h.firstPage, Movable(h.lay, h.marked, h.pinned, h.firstPage);
    ElemsJoin(ps, h.pool);
    SupplyDisjoint(h.mem, h.hdr, h.lay, ps, Elems(ps + h.pool), h.big, h.brk);
    forall b | b in pins
      ensures b !in movable
    {
      PinnedStays(h.lay, h.marked, h.pinned, ps, b);
    }
    SamePinnedPages(h.lay, h.pinned, pins, ps, pinned0);
    var keep := Elems(ps) - SweepPinned.PinnedPages(h.lay, h.pinned, ps);
    Members(ps, keep);
    hide Heap.Supply, SweepPinned.PinnedPages, Keep;
    assert PageBlocks(h.lay, Keep(ps, keep)) <= PageBlocks(h.lay, ps);
    assert movable <= PageBlocks(h.lay, ps);
  }

  lemma SamePinnedPages(lay: Layout, pinned: set<int>, pins: set<int>, ps: seq<int>, other: set<int>)
    requires pinned + other == pins + other && other !! PageBlocks(lay, ps)
    ensures SweepPinned.PinnedPages(lay, pinned, ps) == SweepPinned.PinnedPages(lay, pins, ps)
  {
    forall p | p in ps
      ensures SweepPinned.PageHasPin(lay, pinned, p) <==> SweepPinned.PageHasPin(lay, pins, p)
    {
      if p in lay {
        forall b | b in lay[p]
          ensures b in PageBlocks(lay, ps) && b !in other
        {
        }
        forall b | b in lay[p]
          ensures b in pinned <==> b in pins
        {
          assert b in pinned + other <==> b in pins + other;
        }
      }
    }
  }

  lemma BigOffPages(h: Heap)
    requires h.Supply(h.firstPage)
    ensures Elems(h.big) !! PageBlocks(h.lay, h.firstPage)
  {
    ElemsJoin(h.firstPage, h.pool);
    SupplyDisjoint(h.mem, h.hdr, h.lay, h.firstPage, Elems(h.firstPage + h.pool), h.big, h.brk);
  }

  /** The pages that stay, in the order in which sweep leaves them. */
  ghost function Stay(lay: Layout, ps: seq<int>, pins: set<int>): seq<int> {
    Reverse(Keep(ps, SweepPinned.PinnedPages(lay, pins, ps)))
  }

  /** Which big blocks survive, and which pages stay, in terms of the objects pinned. */
  lemma BigSurvivors(big0: seq<int>, big: seq<int>, marked: set<int>, pinned: set<int>, ps: seq<int>, lay: Layout,
                    pins: set<int>, pinned0: set<int>, marks: set<int>)
    requires big == Keep(big0, marked + pinned) && pinned == pinned0 + pins && Elems(big0) !! PageBlocks(lay, ps)
    requires marks == marked * (PageBlocks(lay, ps) + Elems(big0)) && pinned0 !! PageBlocks(lay, ps) + Elems(big0)
             && pins <= marks
    ensures Elems(big) == Elems(big0) * marks
    ensures SweepPinned.PinnedPages(lay, pinned - Elems(big), ps) == SweepPinned.PinnedPages(lay, pins, ps)
  {
    KeptElems(big0, marked + pinned);
    SamePinnedPages(lay, pinned - Elems(big), pins, ps, pinned0 + Elems(big));
  }

  /** No surviving big block has a field into a page without a pinned object: what must hold before a
      collection for all fields to be right after it. */
  ghost predicate BigFieldsPinned(shells: Shells, mem: Memory, m: set<int>, big: set<int>, lay: Layout, ps: seq<int>,
                    pins: set<int>) {
    forall b, t :: b in m * big && b in mem && MetaOk(shells, mem[b]) && t in Succ(shells, mem[b]) ==>
      forall p :: p in ps && p in lay && t in lay[p] ==> SweepPinned.PageHasPin(lay, pins, p)
  }

  lemma BigFieldsSame(shells: Shells, mem: Memory, m: set<int>, big0: set<int>, big: set<int>, lay: Layout,
                    ps: seq<int>, pins: set<int>, moved: map<int, int>)
    requires m * big0 == m * big && moved.Keys == Movable(lay, m, pins, ps) && Graph(shells, mem, m, {})
    ensures BigFieldsStay(shells, mem, m, big, moved) <==> BigFieldsPinned(shells, mem, m, big0, lay, ps, pins)
  {
    var k := Elems(ps) - SweepPinned.PinnedPages(lay, pins, ps);
    Members(ps, k);
    hide Keep;
    forall b, t | b in m * big && b in mem && MetaOk(shells, mem[b]) && t in Succ(shells, mem[b])
      ensures t in moved.Keys <==> exists p ::
              p in ps && p in lay && t in lay[p]
              && !SweepPinned.PageHasPin(lay, pins, p)
    {
      assert b in m - {} && t in m;
      OnEvacuated(lay, ps, pins, t, k);
    }
  }

  /** The block lies on a page in use, none of whose blocks is among the pins. */
  ghost predicate OffPinnedPages(lay: Layout, ps: seq<int>, pins: set<int>, b: int) {
    exists p :: p in ps && p in lay && b in lay[p] && forall x :: x in lay[p] ==> x !in pins
  }

  lemma MovedExactly(lay: Layout, ps: seq<int>, marks: set<int>, pins: set<int>)
    ensures forall b :: b in Movable(lay, marks, pins, ps) <==> b in marks && OffPinnedPages(lay, ps, pins, b)
  {
    hide PageBlocks, Keep;
    forall b
      ensures b in Movable(lay, marks, pins, ps) <==> b in marks && OffPinnedPages(lay, ps, pins, b)
    {
      OnEvacuated(lay, ps, pins, b, Elems(ps) - SweepPinned.PinnedPages(lay, pins, ps));
    }
  }

  lemma OnEvacuated(lay: Layout, ps: seq<int>, pins: set<int>, t: int, k: set<int>)
    requires k == Elems(ps) - SweepPinned.PinnedPages(lay, pins, ps)
    ensures t in PageBlocks(lay, Keep(ps, k)) <==>
            exists p :: p in ps && p in lay && t in lay[p] && !SweepPinned.PageHasPin(lay, pins, p)
  {
    Members(ps, k);
    hide Keep;
    if p :| p in ps && p in lay && t in lay[p] && !SweepPinned.PageHasPin(lay, pins, p) {
      assert p in Elems(ps) && p in k && p in Keep(ps, k);
    }
    if t in PageBlocks(lay, Keep(ps, k)) {
      var p :| p in Keep(ps, k) && p in lay && t in lay[p];
      assert p in ps && p in k;
    }
  }

  /** Survivors have positive addresses. */
  lemma Survived(h: Heap, moved: map<int, int>, marks: set<int>)
    requires h.Supply(h.firstPage) && h.Live() == Relocated(moved, marks) && moved.Keys <= marks
    ensures forall b :: b in moved ==> moved[b] > NULL
  {
    BlocksMapped(h);
    hide Heap.Supply;
    forall b | b in moved
      ensures moved[b] > NULL
    {
      assert Relocate(moved, b) in Relocated(moved, marks);
      assert moved[b] in h.Live();
    }
  }

  lemma RoomySeeds(sc: Scene, sc': Scene, f: nat)
    requires sc' == sc.(seeds := sc'.seeds)
    ensures Roomy(sc, f) ==> Roomy(sc', f)
  {
  }

  lemma AllSeen(words: seq<int>, hw: set<int>, seen0: set<int>)
    requires forall w :: w in hw ==> w in words
    ensures SeenOf(words, hw, seen0) == seen0 + hw
  {
    forall w | w in hw
      ensures w in SeenOf(words, hw, seen0)
    {
      assert w in words;
    }
  }

  /** Marks outside the heap are closed. */
  lemma FreshClosed(sc: Scene, marked: set<int>, blocks: set<int>)
    requires sc.u <= blocks && marked !! blocks
    ensures MarksClosed(sc.shells, sc.mem, sc.u, marked)
  {
    assert marked * sc.u == {};
  }

  predicate OnSomeStack(stacks: seq<seq<int>>, w: int) { exists s :: 0 <= s < |stacks| && w in stacks[s] }

  /** The object registered at p is where it was, alive, and still registered. */
  ghost predicate StaysPut(p: int, moved: map<int, int>, live: set<int>, bucket: seq<Entry>) {
    && BlockOf(p) !in moved && BlockOf(p) in live
    && exists j :: 0 <= j < |bucket| && bucket[j].p == p
  }

  ghost predicate StartPinned(t: seq<seq<Entry>>, seen: set<int>, pins: set<int>, i: int, p: int)
    requires 0 <= i < |t|
  {
    BlockOf(p) in pins && exists j :: 0 <= j < |t[i]| && t[i][j].p == p && HitAt(t, seen, i, j)
  }

  lemma StartStays(t: seq<seq<Entry>>, bucket: seq<Entry>, seen: set<int>, pins: set<int>, m: set<int>,
                   moved: map<int, int>, i: nat, p: int)
    requires i < |t| && StartPinned(t, seen, pins, i, p) && bucket == HitEntries(t, seen, i, |t[i]|)
    requires pins <= m && moved.Keys <= m - pins
    ensures StaysPut(p, moved, Relocated(moved, m), bucket)
  {
    var j :| 0 <= j < |t[i]| && t[i][j].p == p && HitAt(t, seen, i, j);
    HitsOnly(t, seen, i, |t[i]|);
    assert Entry(p, t[i][j].end, false) in bucket;
    assert Relocate(moved, BlockOf(p)) == BlockOf(p);
  }

  ghost predicate BigOnly(shells: Shells, mem: Memory, live: set<int>, big: set<int>) {
    forall b :: b in live * big && b in mem && MetaOk(shells, mem[b]) ==> Succ(shells, mem[b]) <= big
  }

  /** Big blocks that point to big blocks only are what the third pass takes them for, and stay so. */
  lemma BigKept(shells: Shells, mem0: Memory, mem: Memory, u: set<int>, m: set<int>, big0: set<int>, big: set<int>,
                moved: map<int, int>)
    requires BigOnly(shells, mem0, u, big0) && m <= u && Graph(shells, mem0, m, {}) && m * big0 <= big <= big0
    requires moved.Keys !! big0 && moved.Keys <= m && Images(moved) !! m && Isomorphic(shells, mem0, mem, m, big, moved)
    requires Relocated(moved, m) * big <= m
    ensures BigFieldsStay(shells, mem0, m, big, moved)
    ensures BigOnly(shells, mem, Relocated(moved, m), big)
  {
  }

  // ---------------------------------------------------------------- between collections

  lemma LiveGraph(h: Heap)
    requires h.LiveOk({})
    ensures Graph(h.shells, h.mem, h.Live(), {}) && RootsInto(h.roots, h.Live())
  {
  }

  lemma LiveMeta(shells: Shells, mem: Memory, live: set<int>, b: int)
    requires Graph(shells, mem, live, {}) && b in live
    ensures b in mem && MetaOk(shells, mem[b])
  {
  }

  lemma EntriesLeft(shells: Shells, mem: Memory, u: set<int>, t0: seq<seq<Entry>>, t: seq<seq<Entry>>, seen: set<int>)
    requires EntriesOk(shells, mem, u, t0)
    requires Cleaned(t0, seen, t)
    ensures Unmarked(t) && EntriesOk(shells, mem, u, t)
  {
    forall i, k | 0 <= i < |t| && 0 <= k < |t[i]|
      ensures !t[i][k].marked && EntryOk(shells, mem, u, t[i][k])
    {
      HitsOnly(t0, seen, i, |t0[i]|);
      assert t[i][k] in HitEntries(t0, seen, i, |t0[i]|);
      var j :| 0 <= j < |t0[i]| && HitAt(t0, seen, i, j) && t[i][k] == Entry(t0[i][j].p, t0[i][j].end, false);
      assert EntryOk(shells, mem, u, t0[i][j]);
    }
  }

  lemma EntryAdded(shells: Shells, mem: Memory, live: set<int>, t0: seq<seq<Entry>>, t: seq<seq<Entry>>, p: int,
                   end: int)
    requires WithEntry(t0, t, p, end)
    requires EntriesOk(shells, mem, live, t0) && Unmarked(t0) && EntryOk(shells, mem, live, Entry(p, end, false))
    ensures EntriesOk(shells, mem, live, t) && Unmarked(t) && t[Hash(p, |t0|)][0].p == p && Registered(t, p)
  {
  }

  /** The entry at the front of its bucket. */
  ghost predicate WithEntry(t0: seq<seq<Entry>>, t: seq<seq<Entry>>, p: int, end: int) {
    |t0| >= 1 && 0 <= Hash(p, |t0|) < |t0| && t == t0[Hash(p, |t0|) := [Entry(p, end, false)] + t0[Hash(p, |t0|)]]
  }

  /** Only the entries that some word finds are left, in order. */
  ghost predicate Cleaned(t0: seq<seq<Entry>>, seen: set<int>, t: seq<seq<Entry>>) {
    |t| == |t0| && forall i :: 0 <= i < |t| ==> t[i] == HitEntries(t0, seen, i, |t0[i]|)
  }

  ghost predicate Registered(t: seq<seq<Entry>>, p: int) {
    exists i, k :: 0 <= i < |t| && 0 <= k < |t[i]| && t[i][k].p == p
  }

  lemma StillRegistered(t0: seq<seq<Entry>>, t: seq<seq<Entry>>, seen: set<int>, i: nat, p: int)
    requires i < |t0| == |t| && t[i] == HitEntries(t0, seen, i, |t0[i]|)
    requires exists j :: 0 <= j < |t0[i]| && t0[i][j].p == p && HitAt(t0, seen, i, j)
    ensures Registered(t, p)
  {
    var j :| 0 <= j < |t0[i]| && t0[i][j].p == p && HitAt(t0, seen, i, j);
    HitsOnly(t0, seen, i, |t0[i]|);
    var e := Entry(p, t0[i][j].end, false);
    assert e in t[i];
    var k :| 0 <= k < |t[i]| && t[i][k] == e;
    assert t[i][k].p == p;
  }

  /** Entries do not notice changes elsewhere. */
  lemma ObjectsFrame(shells: Shells, mem: Memory, mem': Memory, live: set<int>, live': set<int>, t: seq<seq<Entry>>)
    requires EntriesOk(shells, mem, live, t) && live <= live'
    requires forall b :: b in live && b in mem && MetaOk(shells, mem[b]) ==>
               b in mem' && |mem'[b]| == |mem[b]| && mem'[b][1] == mem[b][1] && mem'[b][2] == mem[b][2]
    ensures EntriesOk(shells, mem', live', t)
  {
  }

  lemma BigFrame(shells: Shells, mem: Memory, mem': Memory, live: set<int>, live': set<int>, big: set<int>,
                 big': set<int>, b: int)
    requires BigOnly(shells, mem, live, big) && live' <= live && big <= big' <= big + {b} && b !in live'
    requires forall x :: x in live && x in mem' ==> x in mem && mem'[x] == mem[x]
    ensures BigOnly(shells, mem', live', big')
  {
  }

  /** One field of one object redirected to a live object. */
  lemma FieldSet(shells: Shells, mem: Memory, live: set<int>, big: set<int>, b: int, k: int, w: Word)
    requires Graph(shells, mem, live, {}) && b in live && b in mem && MetaOk(shells, mem[b])
    requires 3 <= k < |mem[b]| && k in Fields(shells, mem[b]) && RootInto(w, live)
    ensures var mem' := mem[b := mem[b][k := w]];
      && Graph(shells, mem', live, {})
      && (BigOnly(shells, mem, live, big) && (b in big && !IsNullWord(w) ==> TargetOf(w) in big) ==>
        BigOnly(shells, mem', live, big))
  {
  }

  /** Objects do not notice a new shell. */
  lemma MoreShells(shells: Shells, mem: Memory, live: set<int>, big: set<int>, t: seq<seq<Entry>>, w: Word, sh: Shell)
    requires w !in shells && Graph(shells, mem, live, {}) && EntriesOk(shells, mem, live, t)
    ensures var shells' := shells[w := sh];
            Graph(shells', mem, live, {}) && EntriesOk(shells', mem, live, t)
            && (BigOnly(shells, mem, live, big) ==> BigOnly(shells', mem, live, big))
  {
  }

  /** Without a collection everything stays where it is. */
  lemma NothingMoves(shells: Shells, mem: Memory, live: set<int>, big: set<int>, roots: seq<seq<Word>>)
    requires Graph(shells, mem, live, {})
    ensures Isomorphic(shells, mem, mem, live, big, map[]) && Relocated(map[], live) == live
            && ForwardAll(map[], roots) == roots
  {
    forall b | b in live
      ensures b in mem && Rewrite(shells, map[], mem[b]) == mem[b] && b in Relocated(map[], live)
    {
      assert b in live - {};
      assert Relocate(map[], b) == b;
    }
    forall i | 0 <= i < |roots|
      ensures ForwardAll(map[], roots)[i] == roots[i]
    {
    }
  }

  /** A block outside the survivors may change. */
  lemma IsomorphicStill(shells: Shells, mem0: Memory, mem: Memory, mem': Memory, m: set<int>, big: set<int>,
                        moved: map<int, int>, b: int)
    requires Isomorphic(shells, mem0, mem, m, big, moved) && b !in Relocated(moved, m) && b in mem'
             && mem' == mem[b := mem'[b]]
    ensures Isomorphic(shells, mem0, mem', m, big, moved)
  {
  }

  /** What an allocation makes of the other objects: survivors keep their identity, the roots follow
      them, and b is the only object besides. */
  ghost predicate Others(s: Before, mem: Memory, roots: seq<seq<Word>>, live: set<int>, b: int, survivors: set<int>,
                    moved: map<int, int>) {
    && survivors <= s.live && roots == ForwardAll(moved, s.roots) && RootsFollow(moved, s.roots, roots)
    && b !in Relocated(moved, survivors) && live == Relocated(moved, survivors) + {b}
    && Isomorphic(s.shells, s.mem, mem, survivors, s.big, moved)
  }

  lemma OthersAre(s: Before, mem: Memory, roots: seq<seq<Word>>, live: set<int>, b: int, survivors: set<int>,
                  moved: map<int, int>)
    requires survivors <= s.live && roots == ForwardAll(moved, s.roots)
    requires b !in Relocated(moved, survivors) && live == Relocated(moved, survivors) + {b}
    requires Isomorphic(s.shells, s.mem, mem, survivors, s.big, moved)
    ensures Others(s, mem, roots, live, b, survivors, moved)
  {
    AllFollow(moved, s.roots);
  }

  lemma OthersStill(s: Before, mem: Memory, mem': Memory, roots: seq<seq<Word>>, live: set<int>, b: int,
                    survivors: set<int>, moved: map<int, int>)
    requires Others(s, mem, roots, live, b, survivors, moved) && b in mem' && mem' == mem[b := mem'[b]]
    ensures Others(s, mem', roots, live, b, survivors, moved)
  {
  }

  /** Only the big blocks among the survivors matter. */
  lemma IsomorphicSame(shells: Shells, mem0: Memory, mem: Memory, m: set<int>, big: set<int>, big': set<int>,
                    moved: map<int, int>)
    requires Isomorphic(shells, mem0, mem, m, big, moved) && m * big == m * big'
    ensures Isomorphic(shells, mem0, mem, m, big', moved)
  {
    forall b | b in m
      ensures b in big <==> b in big'
    {
      assert b in m * big <==> b in m * big';
    }
  }

  /** A count in a word, split at the tag bits. */
  function CountWord(n: nat): Word { Word(4 * (n / 4), n % 4) }

  function MetaWritten(d: Payload, shell: Word, count: nat): Payload
    requires |d| >= 3
  {
    d[1 := shell][2 := CountWord(count)]
  }

  /** A zeroed block with its meta filled in is an object whose fields are all null. */
  lemma FreshObject(shells: Shells, shell: Word, count: nat, n: nat)
    requires shell in shells && ShellOk(shells[shell]) && META + shells[shell].size * count < 8 * n && n >= 3
    ensures var d := MetaWritten(Zeros(n), shell, count);
            PayloadOk(shells, d) && Succ(shells, d) == {} && d[1] == shell && Value(d[2]) == count
  {
    var d := MetaWritten(Zeros(n), shell, count);
    assert MetaOk(shells, d);
    FieldsInPayload(shells, d);
  }

  /** The new block joins the graph. */
  lemma GraphWithNew(shells: Shells, mem: Memory, live: set<int>, b: int, d: Payload)
    requires Graph(shells, mem, live, {b}) && PayloadOk(shells, d) && Succ(shells, d) == {}
    ensures Graph(shells, mem[b := d], live, {})
  {
  }

  lemma BigWithNew(shells: Shells, mem: Memory, live: set<int>, b: int, d: Payload, big: set<int>)
    requires BigOnly(shells, mem, live - {b}, big) && PayloadOk(shells, d) && Succ(shells, d) == {}
    ensures BigOnly(shells, mem[b := d], live, big)
  {
  }

  lemma ForwardLength(moved: map<int, int>, roots: seq<seq<Word>>)
    ensures |ForwardAll(moved, roots)| == |roots|
  {
  }

  /** What the surviving entries name has not moved. */
  lemma EntriesKept(shells: Shells, mem0: Memory, mem: Memory, u: set<int>, m: set<int>, big: set<int>,
                    moved: map<int, int>, t0: seq<seq<Entry>>, t: seq<seq<Entry>>, seen: set<int>)
    requires EntriesOk(shells, mem0, u, t0) && Pins(t0, seen) <= m && Isomorphic(shells, mem0, mem, m, big, moved)
    requires moved.Keys !! Pins(t0, seen)
    requires Cleaned(t0, seen, t)
    ensures Unmarked(t) && EntriesOk(shells, mem, Relocated(moved, m), t)
  {
    forall i, k | 0 <= i < |t| && 0 <= k < |t[i]|
      ensures !t[i][k].marked && EntryOk(shells, mem, Relocated(moved, m), t[i][k])
    {
      HitsOnly(t0, seen, i, |t0[i]|);
      assert t[i][k] in HitEntries(t0, seen, i, |t0[i]|);
      var j :| 0 <= j < |t0[i]| && HitAt(t0, seen, i, j) && t[i][k] == Entry(t0[i][j].p, t0[i][j].end, false);
      EntryKept(shells, mem0, mem, u, m, big, moved, t0, seen, i, j);
    }
  }

  lemma EntryKept(shells: Shells, mem0: Memory, mem: Memory, u: set<int>, m: set<int>, big: set<int>,
                  moved: map<int, int>, t0: seq<seq<Entry>>, seen: set<int>, i: nat, j: nat)
    requires EntriesOk(shells, mem0, u, t0) && Pins(t0, seen) <= m && Isomorphic(shells, mem0, mem, m, big, moved)
    requires moved.Keys !! Pins(t0, seen)
    requires i < |t0| && j < |t0[i]| && HitAt(t0, seen, i, j)
    ensures EntryOk(shells, mem, Relocated(moved, m), Entry(t0[i][j].p, t0[i][j].end, false))
  {
    var b := BlockOf(t0[i][j].p);
    assert EntryOk(shells, mem0, u, t0[i][j]);
    var w :| w in seen && Finds(t0, w) && i == Hash(w, |t0|) && j == FirstHolder(t0[i], w);
    assert b in Pins(t0, seen) && b !in moved && Relocate(moved, b) == b;
    RewrittenMeta(shells, moved, mem0[b]);
    assert Relocate(moved, b) in Relocated(moved, m);
    MetaWords(shells, moved, mem0[b]);
  }

  lemma MetaWords(shells: Shells, moved: map<int, int>, d: Payload)
    requires MetaOk(shells, d)
    ensures Rewrite(shells, moved, d)[1] == d[1] && Rewrite(shells, moved, d)[2] == d[2]
  {
    FieldsInPayload(shells, d);
  }
}
