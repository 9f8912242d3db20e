/** The marking part of mark_and_sweep: what scanning stacks and traversing roots, thread by thread, does to
    the marks, the pins and the table. */
module MarkPhases {
  import opened Objects
  import opened Heaps
  import opened GoSpec
  import opened Capacity
  import opened Marking
  import opened DerefRoots
  import opened DerefScan

  /** What stays the same throughout: the objects u of the heap, the objects `seeds` that may be traversed
      from, the table and the pins at the beginning, and the size of the stack of go. */
  datatype Scene = Scene(shells: Shells, mem: Memory, u: set<int>, seeds: set<int>, table: seq<seq<Entry>>,
    pins0: set<int>, cap: nat)

  /** What changes: the table, the stack words seen, the pins and the marks. */
  datatype Progress = Progress(table: seq<seq<Entry>>, seen: set<int>, pinned: set<int>, marked: set<int>)

  // ---------------------------------------------------------------- scanning a stack

  /** After some words of the stacks: the table and the pins are what the words seen make of them,
      every pinned object is marked, and the marks are those of traversals from the objects `hits`,
      which began with the marks m0. A scan that only cleans the table neither pins nor marks. */
  ghost predicate ScanInv(full: bool, sc: Scene, p: Progress, m0: set<int>, hits: seq<int>, overflow: bool) {
    && MarkedTable(sc.table, p.table, p.seen)
    && (full ==> p.pinned == sc.pins0 + Pins(sc.table, p.seen) && Pins(sc.table, p.seen) <= p.marked)
    && (full ==> MarkStep(sc.shells, sc.mem, sc.u, sc.seeds, m0, p.marked, overflow))
    && (full ==> GoAll(sc.shells, sc.mem, sc.cap, hits, m0, p.marked, overflow))
    && (!full ==> p.pinned == sc.pins0 && p.marked == m0 && !overflow)
  }

  lemma ScanStart(full: bool, sc: Scene, p: Progress)
    requires MarkedTable(sc.table, p.table, p.seen)
             && p.pinned == (if full then sc.pins0 + Pins(sc.table, p.seen) else sc.pins0)
    requires full ==> Pins(sc.table, p.seen) <= p.marked && Sound(sc.shells, sc.mem, sc.u, sc.seeds, p.marked)
    ensures ScanInv(full, sc, p, p.marked, [], false)
  {
    if full {
      MarkNothing(sc.shells, sc.mem, sc.u, sc.seeds, p.marked);
      GoNone(sc.shells, sc.mem, sc.cap, p.marked);
    }
  }

  /** A word that pins nothing new. */
  lemma ScanOld(full: bool, sc: Scene, p: Progress, p': Progress, w: int, newly: bool, hit: int, m0: set<int>,
                hits: seq<int>, overflow: bool)
    requires ScanInv(full, sc, p, m0, hits, overflow) && |p.table| >= 1 && WordMarked(p.table, p'.table, w, newly, hit)
    requires full ==> !newly
    requires p' == Progress(p'.table, p.seen + {w}, p.pinned, p.marked)
    ensures ScanInv(full, sc, p', m0, hits, overflow) && (newly <==> NewHit(sc.table, p.seen, w))
  {
    hide MarkStep, WordMarked, GoAll;
    ScanWord(sc.table, p.table, p'.table, p.seen, w, newly, hit);
  }

  /** A word that pins an object, which is then traversed. */
  lemma ScanNew(sc: Scene, p: Progress, p': Progress, w: int, hit: int, m0: set<int>, hits: seq<int>, overflow: bool,
                dropped: bool)
    requires ScanInv(true, sc, p, m0, hits, overflow) && |p.table| >= 1 && WordMarked(p.table, p'.table, w, true, hit)
    requires GoPost(sc.shells, sc.mem, sc.u, BlockOf(hit), p.marked, p'.marked, dropped) && BlockOf(hit) in sc.seeds
    requires GoExact(sc.shells, sc.mem, sc.cap, BlockOf(hit), p.marked, p'.marked, dropped)
    requires p' == Progress(p'.table, p.seen + {w}, p.pinned + {BlockOf(hit)}, p'.marked)
    ensures ScanInv(true, sc, p', m0, hits + [BlockOf(hit)], overflow || dropped)
    ensures NewHit(sc.table, p.seen, w) && hit == Found(sc.table, w).p
  {
    ScanWord(sc.table, p.table, p'.table, p.seen, w, true, hit);
    MarkMore(sc.shells, sc.mem, sc.u, sc.seeds, m0, p.marked, p'.marked, BlockOf(hit), overflow, dropped);
    GoOneMore(sc.shells, sc.mem, sc.cap, hits, BlockOf(hit), m0, p.marked, overflow, p'.marked, dropped);
    hide MarkStep, GoPost, WordMarked, MarkedTable, GoAll, GoExact;
  }

  /** What a new pin names is among the objects that may be traversed from. */
  lemma NewPin(full: bool, sc: Scene, p: Progress, t': seq<seq<Entry>>, m0: set<int>, hits: seq<int>, overflow: bool,
               w: int, hit: int, all: set<int>)
    requires ScanInv(full, sc, p, m0, hits, overflow) && |p.table| >= 1 && WordMarked(p.table, t', w, true, hit)
             && w in all
    ensures BlockOf(hit) in Pins(sc.table, all)
  {
    ScanWord(sc.table, p.table, t', p.seen, w, true, hit);
    assert BlockOf(Found(sc.table, w).p) in Pins(sc.table, all);
  }

  lemma CleanFacts(sc: Scene, p: Progress, m0: set<int>, hits: seq<int>, dropped: bool)
    requires ScanInv(false, sc, p, m0, hits, dropped)
    ensures p.pinned == sc.pins0 && p.marked == m0 && !dropped && MarkedTable(sc.table, p.table, p.seen)
    ensures ScanInv(false, sc, p, m0, [], false)
  {
  }

  // ---------------------------------------------------------------- a stack that is large enough

  /** On n objects with at most f fields each, a stack of more than (n-2)(f-1) entries is enough. */
  ghost predicate Roomy(sc: Scene, f: nat) {
    f >= 1 && FieldBound(sc.shells, sc.mem, sc.u, f) && sc.cap >= 1 && sc.cap > (|sc.u| - 2) * (f - 1)
  }

  /** Then a traversal keeps the marks closed, whatever it reports. */
  lemma RoomyGo(sc: Scene, f: nat, root: int, m1: set<int>, m2: set<int>, overflow: bool)
    requires Graph(sc.shells, sc.mem, sc.u, {}) && Roomy(sc, f) && root in sc.u
             && MarksClosed(sc.shells, sc.mem, sc.u, m1)
    requires GoExact(sc.shells, sc.mem, sc.cap, root, m1, m2, overflow)
    ensures MarksClosed(sc.shells, sc.mem, sc.u, m2)
  {
    var n := |sc.u - m1|;
    FewerLeft(sc.u, m1, f - 1);
    forall x | x in m1 * sc.u && x in sc.mem && MetaOk(sc.shells, sc.mem[x])
      ensures Succ(sc.shells, sc.mem[x]) <= m1
    {
    }
    assert GoHeap(sc.shells, sc.mem, sc.u, m1, n, f);
    OverflowHarmless(sc.shells, sc.mem, sc.u, n, f, m1, sc.cap, root, m2, overflow);
    NothingLost(sc.shells, sc.mem, sc.u, m2);
  }

  lemma FewerLeft(u: set<int>, m1: set<int>, g: nat)
    ensures (|u - m1| - 2) * g <= (|u| - 2) * g
  {
    assert u == (u - m1) + (u * m1);
    assert |u| == |u - m1| + |u * m1|;
    assert (|u| - 2) * g == (|u - m1| - 2) * g + |u * m1| * g;
  }

  /** Closed marks and lost objects exclude each other. */
  lemma NothingLost(shells: Shells, mem: Memory, u: set<int>, marked: set<int>)
    requires Graph(shells, mem, u, {})
    ensures MarksClosed(shells, mem, u, marked) <==> !Loses(shells, mem, u, marked)
  {
    if !Loses(shells, mem, u, marked) {
      forall x | x in marked * u
        ensures x in mem && MetaOk(shells, mem[x]) && Succ(shells, mem[x]) <= marked
      {
        assert x in u - {};
      }
    }
  }

  // ---------------------------------------------------------------- the threads, one after the other

  /** The objects that the registered roots name. */
  ghost function RootTargets(roots: seq<seq<Word>>): set<int> {
    set i, b | 0 <= i < |roots| && b in ChainTargets(roots[i]) :: b
  }

  /** After some threads, with the roots `done`: as ScanInv, and their roots are marked. Unless a dropped
      flag has been lost, the marks are closed. */
  ghost predicate PhaseInv(sc: Scene, p: Progress, done: seq<seq<Word>>, m0: set<int>, lost: bool) {
    && MarkedTable(sc.table, p.table, p.seen)
    && p.pinned == sc.pins0 + Pins(sc.table, p.seen) && Pins(sc.table, p.seen) <= p.marked
      && RootTargets(done) <= p.marked
    && m0 <= p.marked <= m0 + sc.u && m0 !! sc.u && Sound(sc.shells, sc.mem, sc.u, sc.seeds, p.marked)
    && (!lost ==> MarksClosed(sc.shells, sc.mem, sc.u, p.marked))
  }

  /** What one thread does to the marks: the objects its stack pins are traversed in turn, then those
      its roots name; if any flag that is kept was raised, the recovery closes the marks. */
  ghost predicate ThreadExact(sc: Scene, keep: bool, hits: seq<int>, targets: seq<int>, m0: set<int>,
                    marked: set<int>) {
    exists m1: set<int>, m2: set<int>, dropped: bool, overflow: bool ::
      && GoAll(sc.shells, sc.mem, sc.cap, hits, m0, m1, dropped)
        && GoAll(sc.shells, sc.mem, sc.cap, targets, m1, m2, overflow)
      && if overflow || (keep && dropped) then m2 <= marked <= m2 + sc.u && MarksClosed(sc.shells, sc.mem, sc.u, marked)
         else marked == m2
  }

  lemma PhaseStart(sc: Scene, p: Progress, roots: seq<seq<Word>>, blocks: set<int>)
    requires sc.u <= blocks && p.marked !! blocks && Unmarked(sc.table)
             && p == Progress(sc.table, {}, sc.pins0, p.marked)
    ensures PhaseInv(sc, p, roots[..0], p.marked, false)
  {
    NothingSeen(sc.table);
    assert p.marked * sc.u == {};
  }

  lemma ThreadRoots(roots: seq<seq<Word>>, u: set<int>, i: nat)
    requires i < |roots| && RootsInto(roots, u)
    ensures ChainInto(roots[i], u) && ChainTargets(roots[i]) <= RootTargets(roots)
    ensures RootTargets(roots[..i + 1]) == RootTargets(roots[..i]) + ChainTargets(roots[i])
  {
  }

  lemma PhaseScan(sc: Scene, p: Progress, done: seq<seq<Word>>, m0: set<int>, lost: bool)
    requires PhaseInv(sc, p, done, m0, lost)
    ensures ScanInv(true, sc, p, p.marked, [], false)
    ensures RootTargets(done) <= p.marked && m0 <= p.marked <= m0 + sc.u
    ensures !lost ==> MarksClosed(sc.shells, sc.mem, sc.u, p.marked)
  {
    hide Sound, MarksClosed, GoAll, MarkedTable, RootTargets;
    ScanStart(true, sc, p);
  }

  lemma ScanMarks(sc: Scene, p: Progress, m0: set<int>, hits: seq<int>, dropped: bool)
    requires ScanInv(true, sc, p, m0, hits, dropped)
    ensures Sound(sc.shells, sc.mem, sc.u, sc.seeds, p.marked)
    ensures GoAll(sc.shells, sc.mem, sc.cap, hits, m0, p.marked, dropped)
  {
  }

  lemma MarkThen(shells: Shells, mem: Memory, u: set<int>, seeds: set<int>, m1: set<int>, m2: set<int>, m3: set<int>,
                 a: bool, b: bool)
    requires MarkStep(shells, mem, u, seeds, m1, m2, a) && MarkStep(shells, mem, u, seeds, m2, m3, b)
    ensures MarkStep(shells, mem, u, seeds, m1, m3, a || b)
  {
    hide Sound;
  }

  /** A thread's stack, from the marks m1 to those of p, and its roots, to those of p'; the marks are
      closed still if they were and nothing was dropped. */
  lemma PhaseThread(sc: Scene, p: Progress, p': Progress, blocks: set<int>, roots: seq<seq<Word>>, i: nat,
                    m0: set<int>, m1: set<int>, hits: seq<int>, lost: bool, dropped: bool, overflow: bool)
    requires i < |roots| && RootTargets(roots[..i]) <= m1 && m0 <= m1 <= m0 + sc.u && m0 !! blocks && sc.u <= blocks
    requires !lost ==> MarksClosed(sc.shells, sc.mem, sc.u, m1)
    requires ScanInv(true, sc, p, m1, hits, dropped) && p' == p.(marked := p'.marked)
    requires MarkStep(sc.shells, sc.mem, sc.u, sc.seeds, p.marked, p'.marked, overflow)
             && ChainTargets(roots[i]) <= p'.marked
    requires RootTargets(roots[..i + 1]) == RootTargets(roots[..i]) + ChainTargets(roots[i])
    ensures PhaseInv(sc, p', roots[..i + 1], m0, lost || dropped || overflow)
    ensures p'.marked * blocks <= sc.u && Sound(sc.shells, sc.mem, sc.u, sc.seeds, p'.marked)
    ensures MarksClosed(sc.shells, sc.mem, sc.u, p.marked) && !overflow ==>
            MarksClosed(sc.shells, sc.mem, sc.u, p'.marked)
  {
    hide Sound, MarksClosed, RootTargets, ChainTargets, MarkedTable, Pins, GoAll;
    MarkThen(sc.shells, sc.mem, sc.u, sc.seeds, m1, p.marked, p'.marked, dropped, overflow);
    if !lost && !dropped && !overflow {
      ClosedOn(sc.shells, sc.mem, sc.u, sc.seeds, m1, p'.marked);
    }
    if MarksClosed(sc.shells, sc.mem, sc.u, p.marked) && !overflow {
      ClosedOn(sc.shells, sc.mem, sc.u, sc.seeds, p.marked, p'.marked);
    }
  }

  lemma PhaseRecovered(sc: Scene, p: Progress, p': Progress, done: seq<seq<Word>>, m0: set<int>)
    requires PhaseInv(sc, p, done, m0, true) && p' == p.(marked := p'.marked)
             && p.marked <= p'.marked <= p.marked + sc.u
    requires Sound(sc.shells, sc.mem, sc.u, sc.seeds, p'.marked) && MarksClosed(sc.shells, sc.mem, sc.u, p'.marked)
    ensures PhaseInv(sc, p', done, m0, false)
  {
    hide Sound, MarksClosed, RootTargets, MarkedTable, Pins;
  }

  lemma PhaseEnd(sc: Scene, p: Progress, roots: seq<seq<Word>>, m0: set<int>, lost: bool)
    requires PhaseInv(sc, p, roots, m0, lost)
    ensures MarkedTable(sc.table, p.table, p.seen) && p.pinned == sc.pins0 + Pins(sc.table, p.seen)
    ensures Pins(sc.table, p.seen) + RootTargets(roots) <= p.marked && m0 <= p.marked <= m0 + sc.u
    ensures Sound(sc.shells, sc.mem, sc.u, sc.seeds, p.marked) && (!lost ==>
            MarksClosed(sc.shells, sc.mem, sc.u, p.marked))
  {
  }
}
