/** What a program can do to the collector as it is written: heaps built by the operations of Collectors
    on which the marking loses an object, and on which a full collection leaves a dangling field. */
module AsWritten {
  import opened Lists
  import opened Objects
  import opened Pages
  import opened Heaps
  import opened GoSpec
  import opened Capacity
  import opened Marking
  import opened DerefRoots
  import opened DerefScan
  import opened MarkPhases
  import opened Evacuate
  import opened FixUp
  import opened Sweep
  import opened Isomorphism
  import opened Loss
  import opened Words
  import opened Collectors
  import SweepPinned

  // ---------------------------------------------------------------- rows of pointers

  /** b is an object of f pointers, which are ts, and null from there on. */
  ghost predicate RowAt(shells: Shells, mem: Memory, b: int, ts: seq<int>, f: nat) {
    && b in mem && MetaOk(shells, mem[b]) && mem[b][1] == ROW && shells[ROW] == RowShell(f) && Value(mem[b][2]) == 1
    && PointsTo(mem[b], ts, f)
  }

  lemma RowField(shells: Shells, d: Payload, f: nat, j: nat)
    requires MetaOk(shells, d) && shells[d[1]] == RowShell(f) && Value(d[2]) == 1 && j < f
    ensures 3 + j in Fields(shells, d)
  {
    RowScan(shells, d, f);
    ScansFields(shells, d, 3 + j);
    assert ScanSeq(shells, d)[j] == 3 + j;
  }

  /** A new row points nowhere. */
  lemma NewRow(shells: Shells, mem: Memory, b: int, f: nat)
    requires b in mem && MetaOk(shells, mem[b]) && mem[b][1] == ROW && shells[ROW] == RowShell(f)
             && Value(mem[b][2]) == 1
    requires Succ(shells, mem[b]) == {}
    ensures RowAt(shells, mem, b, [], f)
  {
    var d := mem[b];
    RowScan(shells, d, f);
    forall k | 3 <= k < f + 3
      ensures IsNullWord(d[k])
    {
      RowField(shells, d, f, k - 3);
      var to, out := TargetOf(d[k]), Succ(shells, d);
      assert !IsNullWord(d[k]) ==> to in out;
    }
  }

  lemma RowStill(shells: Shells, mem: Memory, mem': Memory, b: int, ts: seq<int>, f: nat)
    requires RowAt(shells, mem, b, ts, f) && b in mem' && mem'[b] == mem[b]
    ensures RowAt(shells, mem', b, ts, f)
  {
  }

  lemma RowMapped(shells: Shells, mem: Memory, b: int, ts: seq<int>, f: nat)
    requires RowAt(shells, mem, b, ts, f)
    ensures b in mem && MetaOk(shells, mem[b]) && mem[b][1] == ROW && shells[ROW] == RowShell(f)
            && Value(mem[b][2]) == 1
  {
  }

  /** The next pointer of a row is set. */
  lemma RowSet(shells: Shells, mem: Memory, b: int, ts: seq<int>, f: nat, t: int)
    requires RowAt(shells, mem, b, ts, f) && |ts| < f && t > 0
    ensures 3 + |ts| < |mem[b]| && RowAt(shells, mem[b := mem[b][3 + |ts| := WordTo(t, 0)]], b, ts + [t], f)
  {
  }

  /** A collector with n rows of f pointers, all null. */
  method NewRows(cap: nat, n: nat, f: nat) returns (c: Collector, bs: seq<int>)
    requires cap >= 1
    ensures c.Ready() && fresh({c.h, c.h.freeBlocks, c.t, c.t.roots, c.m, c.m.stack}) && c.m.stack.Length == cap
    ensures c.h.roots == [[]] && |c.t.Contents()| == 1 && c.t.Contents()[0] == []
    ensures |bs| == n && NoDup(bs) && c.h.Live() == Elems(bs)
    ensures forall i :: 0 <= i < n ==> RowAt(c.h.shells, c.h.mem, bs[i], [], f)
  {
    hide Heap.Valid, Heap.LiveOk, DerefTable.Valid, DerefTable.Contents, EntriesOk, Unmarked, RowAt, Others, RowShell,
         Collector.Ready, Collector.BigToBig, Heap.Live;
    c := new Collector(1, cap);
    EmptyHeap(c.h);
    RowShellOk(f);
    c.AddShell(ROW, RowShell(f));
    c.AddThread();
    bs := [];
    while |bs| < n
      invariant c.Ready() && c.BigToBig() && fresh({c.h, c.h.freeBlocks, c.t, c.t.roots, c.m, c.m.stack})
      invariant c.m.stack.Length == cap && ROW in c.h.shells && c.h.shells[ROW] == RowShell(f)
      invariant c.h.roots == [[]] && |c.t.Contents()| == 1 && c.t.Contents()[0] == []
      invariant |bs| <= n && NoDup(bs) && c.h.Live() == Elems(bs)
      invariant forall i :: 0 <= i < |bs| ==> RowAt(c.h.shells, c.h.mem, bs[i], [], f)
    {
      ghost var shells, mem0 := c.h.shells, c.h.mem;
      var b, _, _, _ := c.NewObject(ROW, 1, [[]], true);
      NewRow(shells, c.h.mem, b, f);
      forall i | 0 <= i < |bs|
        ensures bs[i] != b && RowAt(shells, c.h.mem, bs[i], [], f)
      {
        ElemsHas(bs, i);
        assert bs[i] in mem0 by { hide *; RowMapped(shells, mem0, bs[i], [], f); }
        RowStill(shells, mem0, c.h.mem, bs[i], [], f);
      }
      ElemsJoin(bs, [b]);
      bs := bs + [b];
    }
  }

  lemma EmptyHeap(h: Heap)
    requires h.Blocks() == {}
    ensures h.Live() == Elems([])
  {
  }


  // ---------------------------------------------------------------- pointers

  /** A row gets its pointers, one after the other. */
  method SetRow(c: Collector, b: int, ts: seq<int>, ghost f: nat)
    requires c.Ready() && b in c.h.Live() && RowAt(c.h.shells, c.h.mem, b, [], f) && |ts| <= f
    requires forall j :: 0 <= j < |ts| ==> ts[j] in c.h.Live() && ts[j] > 0
    modifies c.h`mem
    ensures c.Ready() && b in c.h.mem && c.h.mem == old(c.h.mem)[b := c.h.mem[b]]
    ensures RowAt(c.h.shells, c.h.mem, b, ts, f)
  {
    hide RowAt, Collector.Ready, RowShell, Fields;
    var j := 0;
    assert ts[..0] == [] && b in c.h.mem by { RowMapped(c.h.shells, c.h.mem, b, [], f); }
    while j < |ts|
      invariant 0 <= j <= |ts| && c.Ready() && b in c.h.mem && c.h.mem == old(c.h.mem)[b := c.h.mem[b]]
      invariant RowAt(c.h.shells, c.h.mem, b, ts[..j], f)
    {
      RowMapped(c.h.shells, c.h.mem, b, ts[..j], f);
      RowField(c.h.shells, c.h.mem[b], f, j);
      RowSet(c.h.shells, c.h.mem, b, ts[..j], f, ts[j]);
      c.SetField(b, 3 + j, WordTo(ts[j], 0));
      assert ts[..j + 1] == ts[..j] + [ts[j]];
      j := j + 1;
    }
    assert ts[..j] == ts;
  }

  /** The first n rows have their pointers, the others have none yet. */
  ghost predicate RowsAt(shells: Shells, mem: Memory, bs: seq<int>, rows: seq<seq<int>>, n: int, f: nat) {
    |rows| == |bs| && forall k :: 0 <= k < |bs| ==> RowAt(shells, mem, bs[k], if k < n then rows[k] else [], f)
  }

  /** No row has more than f pointers, and all name rows. */
  ghost predicate RowsIn(bs: seq<int>, rows: seq<seq<int>>, f: nat) {
    |rows| == |bs| && forall i :: 0 <= i < |bs| ==> |rows[i]| <= f && forall j :: 0 <= j < |rows[i]| ==>
      rows[i][j] in bs
  }

  lemma RowsNext(shells: Shells, mem: Memory, mem': Memory, bs: seq<int>, rows: seq<seq<int>>, n: nat, f: nat)
    requires NoDup(bs) && n < |bs| && RowsAt(shells, mem, bs, rows, n, f)
    requires bs[n] in mem' && mem' == mem[bs[n] := mem'[bs[n]]] && RowAt(shells, mem', bs[n], rows[n], f)
    ensures RowsAt(shells, mem', bs, rows, n + 1, f)
  {
    hide RowAt;
    forall k | 0 <= k < |bs| && k != n
      ensures RowAt(shells, mem', bs[k], if k < n + 1 then rows[k] else [], f)
    {
      var ts := if k < n then rows[k] else [];
      assert RowAt(shells, mem, bs[k], ts, f);
      RowMapped(shells, mem, bs[k], ts, f);
      RowStill(shells, mem, mem', bs[k], ts, f);
    }
  }

  /** All rows get their pointers. */
  method SetRows(c: Collector, bs: seq<int>, rows: seq<seq<int>>, ghost f: nat)
    requires c.Ready() && NoDup(bs) && Elems(bs) == c.h.Live() && RowsAt(c.h.shells, c.h.mem, bs, rows, 0, f)
    requires |rows| == |bs| && RowsIn(bs, rows, f)
    modifies c.h`mem
    ensures c.Ready() && RowsAt(c.h.shells, c.h.mem, bs, rows, |bs|, f)
  {
    hide *;
    var i := 0;
    Positive(c);
    while i < |bs|
      invariant 0 <= i <= |bs| == |rows| && c.Ready() && RowsAt(c.h.shells, c.h.mem, bs, rows, i, f)
    {
      ghost var mem0 := c.h.mem;
      NextRow(c.h.shells, c.h.mem, bs, rows, i, f, c.h.Live());
      SetRow(c, bs[i], rows[i], f);
      RowsNext(c.h.shells, mem0, c.h.mem, bs, rows, i, f);
      i := i + 1;
    }
  }

  lemma NextRow(shells: Shells, mem: Memory, bs: seq<int>, rows: seq<seq<int>>, i: nat, f: nat, live: set<int>)
    requires RowsAt(shells, mem, bs, rows, i, f) && i < |bs| && Elems(bs) == live && forall b :: b in live ==> b > 0
    requires |rows| == |bs| && RowsIn(bs, rows, f)
    ensures |rows[i]| <= f && bs[i] in live && RowAt(shells, mem, bs[i], [], f)
    ensures forall j :: 0 <= j < |rows[i]| ==> rows[i][j] in live && rows[i][j] > 0
  {
    hide RowAt;
    ElemsHas(bs, i);
    forall j | 0 <= j < |rows[i]|
      ensures rows[i][j] in live
    {
      var t := rows[i][j];
      assert t in bs && t in Elems(bs);
    }
  }

  lemma Positive(c: Collector)
    requires c.Ready()
    ensures forall b :: b in c.h.Live() ==> b > 0
  {
    BlocksMapped(c.h);
  }

  // ---------------------------------------------------------------- the flag that mark_stack drops

  /** A table with one entry, whose start address is the only word on the only stack. */
  lemma OneHit(t: seq<seq<Entry>>, p: int, end: int)
    requires t == [[Entry(p, end, false)]] && 0 < p <= end && p % 2 == 0
    ensures NewHits(t, [p], {p}, {}) == [BlockOf(p)] && Pins(t, {p}) == {BlockOf(p)}
  {
    HashInside(p, 1);
    assert [p][..0] == [] && SeenOf([], {p}, {}) == {};
    assert NewHits(t, [], {p}, {}) == [];
    assert Finds(t, p) && Found(t, p) == Entry(p, end, false);
  }

  /** A lone traversal, its flag dropped. */
  lemma LoneThread(sc: Scene, b: int, m0: set<int>, marked: set<int>)
    requires ThreadExact(sc, false, [b], [], m0, marked)
    ensures exists overflow :: GoExact(sc.shells, sc.mem, sc.cap, b, m0, marked, overflow)
  {
    hide GoAll, GoExact;
    var m1: set<int>, m2: set<int>, dropped: bool, overflow: bool :|
      && GoAll(sc.shells, sc.mem, sc.cap, [b], m0, m1, dropped)
        && GoAll(sc.shells, sc.mem, sc.cap, [], m1, m2, overflow)
      && if overflow then m2 <= marked <= m2 + sc.u && MarksClosed(sc.shells, sc.mem, sc.u, marked) else marked == m2;
    GoOnlyOne(sc.shells, sc.mem, sc.cap, b, m0, m1, dropped);
    GoOnNothing(sc.shells, sc.mem, sc.cap, m1, m2, overflow);
  }

  lemma GoOnNothing(shells: Shells, mem: Memory, cap: nat, m1: set<int>, m2: set<int>, overflow: bool)
    requires GoAll(shells, mem, cap, [], m1, m2, overflow)
    ensures m1 == m2 && !overflow
  {
  }

  /** The object at b is dereferenced, and its address kept on the only stack: it is the one object that
      the stack pins. */
  method Hold(c: Collector, b: int) returns (stacks: seq<seq<int>>)
    requires c.Ready() && b in c.h.Live() && |c.t.Contents()| == 1 && c.t.Contents()[0] == []
    modifies c.t, c.t.roots, c.h`marked, c.h`pinned, c.m, c.m.stack
    ensures c.Ready() && unchanged(c.h) && |stacks| == 1
    ensures Pins(c.t.Contents(), c.AllWords(stacks)) == {b} && c.HitsOf(c.t.Contents(), stacks, 0) == [b]
  {
    hide *;
    var p := b + BLOCK + META;
    HeldObject(c, b);
    var stack := [p];
    stacks := [stack];
    ghost var table0 := c.t.Contents();
    ghost var end := p + c.h.shells[c.h.mem[b][1]].size * Value(c.h.mem[b][2]);
    var cleaned, with := c.Dereference(b, stacks, true);
    HeldOnly(table0, c.t.Contents(), b, end);
    OneWord(c, c.t.Contents(), p);
  }

  lemma HeldObject(c: Collector, b: int)
    requires c.Ready() && b in c.h.Live()
    ensures c.h.IsHeapPointer(b + BLOCK + META) && b > 0 && b % 8 == 0
    ensures b in c.h.mem && MetaOk(c.h.shells, c.h.mem[b])
    ensures |c.h.mem[b]| >= 3 && c.h.mem[b][1] in c.h.shells
    ensures c.h.shells[c.h.mem[b][1]].size * Value(c.h.mem[b][2]) >= 0
  {
    LiveGraph(c.h);
    LiveMeta(c.h.shells, c.h.mem, c.h.Live(), b);
    hide Graph, Heap.LiveOk;
    ObjectIsHeapPointer(c.h, b);
    Product(c.h.shells[c.h.mem[b][1]].size, Value(c.h.mem[b][2]));
  }

  lemma HeldOnly(table0: seq<seq<Entry>>, with: seq<seq<Entry>>, b: int, end: int)
    requires |table0| == 1 && table0[0] == [] && WithEntry(table0, with, b + BLOCK + META, end)
    requires b > 0 && b % 8 == 0 && b + BLOCK + META <= end
    ensures NewHits(with, [b + BLOCK + META], {b + BLOCK + META}, {}) == [b]
    ensures Pins(with, {b + BLOCK + META}) == {b}
  {
    hide WithEntry, NewHits, Pins, Hash;
    var p := b + BLOCK + META;
    OnlyEntry(table0, with, p, end);
    OneHit(with, p, end);
    assert BlockOf(p) == b;
  }

  /** The heap s is an object graph, and its table is that of live objects, none found yet. */
  ghost predicate Intact(s: Before) {
    && Graph(s.shells, s.mem, s.live, {}) && RootsInto(s.roots, s.live)
    && Unmarked(s.table) && EntriesOk(s.shells, s.mem, s.live, s.table)
  }

  /** The marking part of a collection has run as it is written, with the flags of mark_stack dropped: it
      began with the heap s and the marks m0, none of them on s, the one thread has no registered roots, and
      its stack pins b alone. The marks, pins and table now are exactly those that this makes of them. */
  ghost predicate MarkedAsWritten(c: Collector, stacks: seq<seq<int>>, s: Before, m0: set<int>, b: int)
    reads c, c.h, c.t, c.m
  {
    && Intact(s) && m0 !! c.h.Blocks() && s.roots == [[]] && PinsOf(s) == {b}
    && c.Snapshot(stacks) == s.(table := c.t.Contents())
    && MarkedTable(s.table, c.t.Contents(), s.words) && b in c.h.pinned
    && ThreadExact(Scene(s.shells, s.mem, s.live, {b}, s.table, {}, c.m.stack.Length), false, [b], [], m0, c.h.marked)
  }

  /** The marking of a collection, as it is written, on a heap whose only root is the stack word that
      holds the object at b, which has been dereferenced. */
  method MarkOnly(c: Collector, b: int) returns (stacks: seq<seq<int>>, ghost s: Before, ghost m0: set<int>)
    requires c.Ready() && b in c.h.Live() && c.h.roots == [[]] && |c.t.Contents()| == 1 && c.t.Contents()[0] == []
    modifies c.h`marked, c.h`pinned, c.t, c.t.roots, c.m, c.m.stack
    ensures MarkedAsWritten(c, stacks, s, m0, b) && m0 == old(c.h.marked)
    ensures exists overflow :: GoExact(c.h.shells, c.h.mem, c.m.stack.Length, b, m0, c.h.marked, overflow)
    ensures Sound(c.h.shells, c.h.mem, c.h.Live(), {b}, c.h.marked)
  {
    hide Graph, RootsInto, DerefTable.Valid, DerefTable.Contents, Heap.Supply, EntriesOk, Unmarked, IndexEmpty, Pins,
         ThreadExact, GoExact, Sound, MarkedTable, MarksClosed, RootTargets, Collector.AllWords, Collector.HitsOf,
         TargetSeq;
    m0 := c.h.marked;
    stacks := Hold(c, b);
    s := c.Snapshot(stacks);
    NoRoots(c.h.roots);
    LiveGraph(c.h);
    ghost var sc := c.Scenery(c.h.Live(), RootTargets(c.h.roots) + Pins(c.t.Contents(), c.AllWords(stacks)));
    assert sc.seeds == {b};
    var lost, ms := c.MarkPhase(stacks, false, sc, 0);
    SameTurn(sc, [b], m0, c.h.marked);
    LoneThread(sc, b, m0, c.h.marked);
  }

  /** Old pins do not matter to a thread's turn. */
  lemma SameTurn(sc: Scene, hits: seq<int>, m0: set<int>, marked: set<int>)
    requires ThreadExact(sc, false, hits, [], m0, marked)
    ensures ThreadExact(sc.(pins0 := {}), false, hits, [], m0, marked)
  {
  }

  lemma OnlyEntry(t0: seq<seq<Entry>>, t: seq<seq<Entry>>, p: int, end: int)
    requires |t0| == 1 && t0[0] == [] && WithEntry(t0, t, p, end)
    ensures t == [[Entry(p, end, false)]]
  {
    HashInside(p, 1);
    assert t == [t[0]] && [Entry(p, end, false)] + t0[0] == [Entry(p, end, false)];
  }

  lemma NoRoots(roots: seq<seq<Word>>)
    requires roots == [[]]
    ensures RootTargets(roots) == {} && TargetSeq(roots[0]) == []
  {
  }

  lemma OneWord(c: Collector, t: seq<seq<Entry>>, p: int)
    requires c.h.IsHeapPointer(p)
    ensures c.AllWords([[p]]) == {p} && c.HitsOf(t, [[p]], 0) == NewHits(t, [p], {p}, {})
  {
    var stack := [p];
    var stacks := [stack];
    assert c.HeapWords(stack) == {p};
    c.NoWords(stacks);
    c.MoreWords(stacks, 0);
    assert stacks[..1] == stacks;
  }

  /** The rows of a ladder of m + 1 rungs whose last target is the second block after them. */
  function LadderRows(bs: seq<int>, m: nat, g: nat): seq<seq<int>>
    requires m + 2 < |bs|
  {
    seq(|bs|, i requires 0 <= i < |bs| => Rung(bs, m, g, bs[m + 2], i))
  }

  lemma RowsInside(bs: seq<int>, m: nat, g: nat)
    requires m + 2 < |bs|
    ensures RowsIn(bs, LadderRows(bs, m, g), g + 1)
  {
    var rows := LadderRows(bs, m, g);
    forall i | 0 <= i < |bs|
      ensures |rows[i]| <= g + 1 && forall j :: 0 <= j < |rows[i]| ==> rows[i][j] in bs
    {
      RungInside(bs, m, g, bs[m + 2], i);
      assert rows[i] == Rung(bs, m, g, bs[m + 2], i);
    }
  }

  lemma NoRowsYet(shells: Shells, mem: Memory, bs: seq<int>, rows: seq<seq<int>>, f: nat)
    requires |rows| == |bs| && forall i :: 0 <= i < |bs| ==> RowAt(shells, mem, bs[i], [], f)
    ensures RowsAt(shells, mem, bs, rows, 0, f)
  {
  }

  /** Rows that point to one another have the targets that were set, and at most f fields. */
  lemma RowsOut(shells: Shells, mem: Memory, bs: seq<int>, rows: seq<seq<int>>, f: nat)
    requires RowsAt(shells, mem, bs, rows, |bs|, f)
    ensures forall i :: 0 <= i < |bs| ==>
            bs[i] in mem && MetaOk(shells, mem[bs[i]])
            && OutOf(shells, mem, bs[i]) == rows[i]
    ensures FieldBound(shells, mem, Elems(bs), f)
  {
    hide RowAt;
    forall i | 0 <= i < |bs|
      ensures bs[i] in mem && MetaOk(shells, mem[bs[i]]) && OutOf(shells, mem, bs[i]) == rows[i]
      ensures |ScanSeq(shells, mem[bs[i]])| == f
    {
      assert RowAt(shells, mem, bs[i], rows[i], f);
      OneRow(shells, mem, bs[i], rows[i], f);
    }
    forall b | b in Elems(bs)
      ensures b in mem && MetaOk(shells, mem[b]) && |ScanSeq(shells, mem[b])| <= f
    {
      var i :| 0 <= i < |bs| && bs[i] == b;
    }
  }

  lemma OneRow(shells: Shells, mem: Memory, b: int, ts: seq<int>, f: nat)
    requires RowAt(shells, mem, b, ts, f)
    ensures b in mem && MetaOk(shells, mem[b]) && OutOf(shells, mem, b) == ts && |ScanSeq(shells, mem[b])| == f
  {
    RowOut(shells, mem, b, ts, f);
  }

  /** What is lost is reached. */
  lemma LostObject(shells: Shells, mem: Memory, u: set<int>, seeds: set<int>, marked: set<int>) returns (lost: int)
    requires Loses(shells, mem, u, marked) && Sound(shells, mem, u, seeds, marked) && Graph(shells, mem, u, {})
    ensures lost in u && ReachedFrom(shells, mem, seeds, lost) && lost !in marked
            && !MarksClosed(shells, mem, u, marked)
  {
    hide PayloadOk, MetaOk;
    var x, y :| x in marked * u && x in mem && MetaOk(shells, mem[x]) && y in Succ(shells, mem[x]) && y !in marked;
    lost := y;
    assert x in u - {};
    assert y in u;
    LiveMeta(shells, mem, u, y);
    var a :| a in seeds && Reaches(shells, mem, a, x);
    ReachesStep(shells, mem, a, x, y);
  }

  /** go on the rows of a ladder loses the last target. */
  lemma LadderEnds(shells: Shells, mem: Memory, bs: seq<int>, m: nat, g: nat, cap: nat, m0: set<int>, marked: set<int>)
    requires m + 2 < |bs| && NoDup(bs) && RowsAt(shells, mem, bs, LadderRows(bs, m, g), |bs|, g + 1)
    requires Times(m, g) < cap <= Times(m + 1, g) && m0 !! Elems(bs)
    requires exists overflow :: GoExact(shells, mem, cap, bs[0], m0, marked, overflow)
    ensures FieldBound(shells, mem, Elems(bs), g + 1) && bs[0] in marked && Loses(shells, mem, Elems(bs), marked)
  {
    hide *;
    IsLadder(shells, mem, bs, m, g);
    RowsOut(shells, mem, bs, LadderRows(bs, m, g), g + 1);
    var y, first := bs[m + 2], bs[..m + 2];
    assert bs[m + 1..][1] == y;
    LadderRun(shells, mem, bs, m, g, y, cap, m0);
    LadderLoses(shells, mem, bs, m, g, y, m0, m + 2);
    var overflow :| GoExact(shells, mem, cap, bs[0], m0, marked, overflow);
    GoDetermined(shells, mem, cap, bs[0], m0, marked, overflow, m0 + Elems(first), true);
    ElemsHas(first, 0);
    assert first[0] == bs[0];
  }

  lemma IsLadder(shells: Shells, mem: Memory, bs: seq<int>, m: nat, g: nat)
    requires m + 2 < |bs| && NoDup(bs) && RowsAt(shells, mem, bs, LadderRows(bs, m, g), |bs|, g + 1)
    ensures Ladder(shells, mem, bs, m, g, bs[m + 2])
  {
    var rows, y := LadderRows(bs, m, g), bs[m + 2];
    RowsOut(shells, mem, bs, rows, g + 1);
    hide RowsAt, OutOf, MetaOk, Rung;
    forall i | 0 <= i < |bs|
      ensures OnLadder(shells, mem, bs, m, g, y, i)
    {
      assert rows[i] == Rung(bs, m, g, y, i);
    }
  }

  /** On a heap of n objects with at most f fields each, the marking as it is written can leave an object
      unmarked that the stack reaches, if the stack of go has at most (n-2)(f-1) entries. */
  method DroppedFlagLosesObject(cap: nat, n: nat, f: nat)
    returns (c: Collector, stacks: seq<seq<int>>, b: int, ghost s: Before, ghost m0: set<int>, ghost lost: int)
    requires cap >= 1 && f >= 1 && cap <= (n - 2) * (f - 1)
    ensures MarkedAsWritten(c, stacks, s, m0, b)
    ensures exists overflow :: GoExact(c.h.shells, c.h.mem, cap, b, m0, c.h.marked, overflow)
    ensures c.m.stack.Length == cap && |c.h.Live()| == n && FieldBound(c.h.shells, c.h.mem, c.h.Live(), f)
    ensures lost in c.h.Live() && ReachedFrom(c.h.shells, c.h.mem, {b}, lost) && lost !in c.h.marked
    ensures b in c.h.marked && !MarksClosed(c.h.shells, c.h.mem, c.h.Live(), c.h.marked)
  {
    hide MarkedAsWritten, RowAt, RowsAt, Collector.Ready, NoDup, Elems, GoExact, Sound, MarksClosed, Graph, Heap.Live,
         Heap.Blocks, Ladder, FieldBound, Loses, ReachedFrom, LadderRows, DerefTable.Contents, Times;
    var g := f - 1;
    assert n >= 3 && g >= 1;
    var m := LastRung(cap, g);
    FullAtLast(cap, g);
    assert cap <= (n - 2) * g && m < n - 2;
    var bs;
    c, bs := NewRows(cap, n, f);
    assert |LadderRows(bs, m, g)| == |bs| by { hide *; LadderCount(bs, m, g); }
    NoRowsYet(c.h.shells, c.h.mem, bs, LadderRows(bs, m, g), f);
    RowsInside(bs, m, g);
    SetRows(c, bs, LadderRows(bs, m, g), f);
    b := bs[0];
    ElemsHas(bs, 0);
    CountElems(bs);
    stacks, s, m0 := MarkOnly(c, b);
    WasGraph(c, stacks, s, m0, b);
    LiveBlocks(c.h);
    LadderEnds(c.h.shells, c.h.mem, bs, m, g, cap, m0, c.h.marked);
    lost := LostObject(c.h.shells, c.h.mem, c.h.Live(), {b}, c.h.marked);
  }

  lemma WasGraph(c: Collector, stacks: seq<seq<int>>, s: Before, m0: set<int>, b: int)
    requires MarkedAsWritten(c, stacks, s, m0, b)
    ensures Graph(c.h.shells, c.h.mem, c.h.Live(), {}) && m0 !! c.h.Blocks()
  {
  }

  lemma LadderCount(bs: seq<int>, m: nat, g: nat)
    requires m + 2 < |bs|
    ensures |LadderRows(bs, m, g)| == |bs|
  {
  }

  lemma LiveBlocks(h: Heap)
    ensures h.Live() <= h.Blocks()
  {
  }

  // ---------------------------------------------------------------- a row with too many pointers

  /** The rows of a star: the first points to all the others. */
  function StarRows(bs: seq<int>): seq<seq<int>>
    requires |bs| >= 1
  {
    [bs[1..]] + seq(|bs| - 1, _ => [])
  }

  lemma StarRowsInside(bs: seq<int>, f: nat)
    requires |bs| >= 1 && f == |bs| - 1
    ensures |StarRows(bs)| == |bs|
    ensures RowsIn(bs, StarRows(bs), f)
    ensures forall i :: 0 <= i < |bs| ==> StarRows(bs)[i] == if i == 0 then bs[1..] else []
  {
    forall j | 0 <= j < |bs[1..]|
      ensures bs[1..][j] in bs
    {
      assert bs[1..][j] == bs[j + 1];
    }
  }

  /** What go leaves unmarked of a star. */
  lemma Unseen(bs: seq<int>, m0: set<int>, k: nat)
    requires NoDup(bs) && m0 !! Elems(bs) && k <= |bs|
    ensures |Elems(bs) - (m0 + Elems(bs[..k]))| == |bs| - k
  {
    assert bs == bs[..k] + bs[k..];
    ElemsJoin(bs[..k], bs[k..]);
    CountElems(bs);
    CountElems(bs[..k]);
    assert Elems(bs) - (m0 + Elems(bs[..k])) == Elems(bs) - Elems(bs[..k]);
  }

  lemma StarEnds(shells: Shells, mem: Memory, bs: seq<int>, cap: nat, m0: set<int>, marked: set<int>)
    requires |bs| >= cap + 2 && NoDup(bs) && RowsAt(shells, mem, bs, StarRows(bs), |bs|, |bs| - 1) && m0 !! Elems(bs)
    requires exists overflow :: GoExact(shells, mem, cap, bs[0], m0, marked, overflow)
    ensures bs[0] in marked && |Elems(bs) - marked| == |bs| - cap - 1 && Loses(shells, mem, Elems(bs), marked)
    ensures bs[0] in mem && MetaOk(shells, mem[bs[0]]) && Elems(bs) - {bs[0]} <= Succ(shells, mem[bs[0]])
  {
    hide *;
    IsStar(shells, mem, bs);
    StarRun(shells, mem, bs, cap, m0);
    Unseen(bs, m0, cap + 1);
    var first := bs[..cap + 1];
    ElemsHas(first, 0);
    assert first[0] == bs[0];
    var overflow :| GoExact(shells, mem, cap, bs[0], m0, marked, overflow);
    GoDetermined(shells, mem, cap, bs[0], m0, marked, overflow, m0 + Elems(bs[..cap + 1]), true);
    StarPoints(shells, mem, bs);
  }

  lemma IsStar(shells: Shells, mem: Memory, bs: seq<int>)
    requires |bs| >= 1 && NoDup(bs) && RowsAt(shells, mem, bs, StarRows(bs), |bs|, |bs| - 1)
    ensures Star(shells, mem, bs)
  {
    RowsOut(shells, mem, bs, StarRows(bs), |bs| - 1);
    StarRowsInside(bs, |bs| - 1);
    hide RowsAt, OutOf, MetaOk, StarRows;
  }

  lemma StarPoints(shells: Shells, mem: Memory, bs: seq<int>)
    requires Star(shells, mem, bs)
    ensures bs[0] in mem && MetaOk(shells, mem[bs[0]]) && Elems(bs) - {bs[0]} <= Succ(shells, mem[bs[0]])
  {
    OutIsSucc(shells, mem, bs[0]);
    hide OutOf, MetaOk;
    forall b | b in Elems(bs) - {bs[0]}
      ensures b in Succ(shells, mem[bs[0]])
    {
      var i :| 0 <= i < |bs| && bs[i] == b;
      assert bs[1..][i - 1] == b;
      assert b in OutOf(shells, mem, bs[0]);
    }
  }

  /** One object that points to n - 1 others, registered on the stack: as it is written, the marking
      marks it and the cap of them that fit on the stack of go, and leaves the rest unmarked. */
  method DroppedFlagLosesLeaves(cap: nat, n: nat)
    returns (c: Collector, stacks: seq<seq<int>>, b: int, ghost s: Before, ghost m0: set<int>)
    requires cap >= 1 && n >= cap + 2
    ensures MarkedAsWritten(c, stacks, s, m0, b)
    ensures exists overflow :: GoExact(c.h.shells, c.h.mem, cap, b, m0, c.h.marked, overflow)
    ensures c.m.stack.Length == cap && |c.h.Live()| == n && b in c.h.Live() && b in c.h.marked
    ensures b in c.h.mem && MetaOk(c.h.shells, c.h.mem[b]) && c.h.Live() - {b} <= Succ(c.h.shells, c.h.mem[b])
    ensures |c.h.Live() - c.h.marked| == n - cap - 1 && !MarksClosed(c.h.shells, c.h.mem, c.h.Live(), c.h.marked)
  {
    hide MarkedAsWritten, RowAt, RowsAt, Collector.Ready, NoDup, Elems, GoExact, Sound, MarksClosed, Graph, Heap.Live,
         Heap.Blocks, Loses, StarRows, DerefTable.Contents;
    var bs;
    c, bs := NewRows(cap, n, n - 1);
    StarRowsInside(bs, n - 1);
    NoRowsYet(c.h.shells, c.h.mem, bs, StarRows(bs), n - 1);
    SetRows(c, bs, StarRows(bs), n - 1);
    b := bs[0];
    ElemsHas(bs, 0);
    CountElems(bs);
    stacks, s, m0 := MarkOnly(c, b);
    WasGraph(c, stacks, s, m0, b);
    LiveBlocks(c.h);
    StarEnds(c.h.shells, c.h.mem, bs, cap, m0, c.h.marked);
    NothingLost(c.h.shells, c.h.mem, c.h.Live(), c.h.marked);
  }

  // ---------------------------------------------------------------- a big array of pointers

  lemma {:induction false} FirstField(shells: Shells, d: Payload)
    requires MetaOk(shells, d) && Value(d[2]) >= 1 && |shells[d[1]].offsets| >= 1
    ensures FieldAt(shells[d[1]].offsets[0]) in Fields(shells, d)
  {
    RowStep(shells[d[1]].offsets, 0, 0);
  }

  /** An object with a field into a page without a pinned object. */
  lemma NotPinned(shells: Shells, mem: Memory, m: set<int>, big: set<int>, lay: Layout, ps: seq<int>, b: int, t: int)
    requires b in m * big && b in mem && MetaOk(shells, mem[b]) && t in Succ(shells, mem[b]) && t in PageBlocks(lay, ps)
    ensures !BigFieldsPinned(shells, mem, m, big, lay, ps, {})
  {
    var p :| p in ps && p in lay && t in lay[p];
    assert !SweepPinned.PageHasPin(lay, {}, p);
  }

  /** The first pointer of the row at b is set to t, and b becomes the only root. */
  method PointTo(c: Collector, b: int, t: int)
    requires c.Ready() && b in c.h.Live() && t in c.h.Live() && c.h.roots == [[]]
    requires b in c.h.mem && MetaOk(c.h.shells, c.h.mem[b]) && c.h.shells[c.h.mem[b][1]] == RowShell(1)
             && Value(c.h.mem[b][2]) >= 1
    modifies c.h`mem, c.h`roots
    ensures c.Ready() && c.h.roots == [[WordTo(b, 0)]]
    ensures ReachedFrom(c.h.shells, c.h.mem, RootTargets(c.h.roots) + {}, b)
    ensures b in c.h.mem && MetaOk(c.h.shells, c.h.mem[b]) && t in Succ(c.h.shells, c.h.mem[b])
    ensures Value(c.h.mem[b][2]) == Value(old(c.h.mem)[b][2])
  {
    hide Collector.Ready, Heap.Live, Fields, ReachedFrom, Succ, RootTargets;
    Positive(c);
    FirstField(c.h.shells, c.h.mem[b]);
    c.SetField(b, 3, WordTo(t, 0));
    FirstField(c.h.shells, c.h.mem[b]);
    FirstTarget(c.h.shells, c.h.mem[b], t);
    c.SetRoots(0, [WordTo(b, 0)]);
    RootIs(c.h.shells, c.h.mem, c.h.roots, b);
  }

  /** A registered array of 2000 pointers, the first of which names a small object. */
  method NewArray() returns (c: Collector, big: int, small: int)
    requires PAGE >= 64
    ensures c.Ready() && fresh({c.h, c.h.freeBlocks, c.t, c.t.roots, c.m, c.m.stack})
    ensures c.h.roots == [[WordTo(big, 0)]] && ReachedFrom(c.h.shells, c.h.mem, RootTargets(c.h.roots) + {}, big)
    ensures |c.t.Contents()| == 1 && c.t.Contents()[0] == []
    ensures big in Elems(c.h.big) && big in c.h.mem && MetaOk(c.h.shells, c.h.mem[big])
            && small in Succ(c.h.shells, c.h.mem[big]) && Value(c.h.mem[big][2]) == 2000
    ensures small in c.h.Live() && small !in c.h.big
  {
    hide Collector.Ready, Collector.BigToBig, DerefTable.Contents, Others, Heap.Live, ReachedFrom, Succ, RootTargets,
         Heap.Valid, DerefTable.Valid, Heap.Blocks, Bytes, RowShell;
    var stacks: seq<seq<int>> := [[]];
    c := new Collector(1, 1);
    RowShellOk(1);
    c.AddShell(ROW, RowShell(1));
    c.AddThread();
    var b, _, _, _ := c.NewObject(ROW, 2000, stacks, true);
    var t, _, _, _ := c.NewObject(ROW, 1, stacks, true);
    big, small := b, t;
    Sizes(c.h.shells[ROW]);
    PointTo(c, big, small);
  }

  /** The heap of c is what a full collection that began with s has made of it. */
  ghost predicate CollectedFrom(c: Collector, s: Before, survivors: set<int>, moved: map<int, int>)
    reads c, c.h, c.h.freeBlocks
  {
    && Intact(s) && Collected(s, survivors, moved) && c.h.Valid() && c.h.shells == s.shells
    && c.h.Live() == Relocated(moved, survivors) && c.h.roots == ForwardAll(moved, s.roots)
    && Isomorphic(s.shells, s.mem, c.h.mem, survivors, s.big, moved)
  }

  /** The object at b has a pointer to t. */
  predicate Names(shells: Shells, mem: Memory, b: int, t: int) {
    b in mem && MetaOk(shells, mem[b]) && t in Succ(shells, mem[b])
  }

  /** A full collection of that heap, even one that keeps every flag, moves the small object and leaves the
      array's pointer as it was: it names no live object any more. */
  method BigArrayDangles()
    returns (c: Collector, big: int, small: int, ghost s: Before, ghost survivors: set<int>, ghost moved: map<int, int>)
    requires PAGE >= 64
    ensures CollectedFrom(c, s, survivors, moved) && s.roots == [[WordTo(big, 0)]] && PinsOf(s) == {}
    ensures big in s.big && Names(s.shells, s.mem, big, small) && Value(s.mem[big][2]) == 2000
    ensures small in moved && big in c.h.Live() && Names(c.h.shells, c.h.mem, big, small) && small !in c.h.Live()
    ensures !Graph(c.h.shells, c.h.mem, c.h.Live(), {}) && RootsInto(c.h.roots, c.h.Live())
  {
    hide Heap.Valid, DerefTable.Contents, RootsInto, Heap.Live, BigFieldsPinned, Graph, ReachedFrom, Succ, Isomorphic,
         Movable, Relocated, ForwardAll, Cleaned, RootTargets, Pins, PageBlocks, EntriesOk, Unmarked,
         DerefTable.Valid, Images, ToSpaceOk, Stay, Collector.AllWords;
    var stacks: seq<seq<int>> := [[]];
    c, big, small := NewArray();
    s := c.Snapshot(stacks);
    LiveGraph(c.h);
    NoEntries(c.t.Contents(), c.AllWords(stacks));
    OnPage(c.h, small);
    ghost var pins, order;
    survivors, pins, moved, order := c.FullGc(stacks, true, 0);
    NotPinned(s.shells, s.mem, survivors, s.big, s.lay, s.pages, big, small);
    IsomorphicSame(s.shells, s.mem, c.h.mem, survivors, Elems(c.h.big), s.big, moved);
    SmallMoves(s, survivors, moved, big, small);
    BigStays(s, survivors, moved, big);
    StillNamed(s, c.h.mem, survivors, moved, big, small);
  }

  /** The small object survives on a page without a pinned object. */
  lemma SmallMoves(s: Before, survivors: set<int>, moved: map<int, int>, big: int, small: int)
    requires Intact(s) && Collected(s, survivors, moved) && PinsOf(s) == {} && big in survivors
    requires Names(s.shells, s.mem, big, small) && small in s.live && small in PageBlocks(s.lay, s.pages)
    ensures small in survivors && small in moved
  {
    hide MetaOk, Succ, Graph, PageBlocks, Keep;
    LiveMeta(s.shells, s.mem, s.live, small);
    var a :| a in RootTargets(s.roots) + {} && Reaches(s.shells, s.mem, a, big);
    ReachesStep(s.shells, s.mem, a, big, small);
    assert ReachedFrom(s.shells, s.mem, RootTargets(s.roots) + {}, small);
    OffPins(s.lay, s.pages, survivors, small);
  }

  lemma BigStays(s: Before, survivors: set<int>, moved: map<int, int>, big: int)
    requires Collected(s, survivors, moved) && big in s.big && s.big !! PageBlocks(s.lay, s.pages)
    ensures big !in moved
  {
    var k := Elems(s.pages) - SweepPinned.PinnedPages(s.lay, PinsOf(s), s.pages);
    Members(s.pages, k);
    assert PageBlocks(s.lay, Keep(s.pages, k)) <= PageBlocks(s.lay, s.pages);
  }

  lemma OffPins(lay: Layout, ps: seq<int>, marks: set<int>, t: int)
    requires t in PageBlocks(lay, ps) && t in marks
    ensures t in Movable(lay, marks, {}, ps)
  {
    var p :| p in ps && p in lay && t in lay[p];
    assert !SweepPinned.PageHasPin(lay, {}, p);
    OnEvacuated(lay, ps, {}, t, Elems(ps) - SweepPinned.PinnedPages(lay, {}, ps));
  }

  /** The big block is where it was, as it was; the small one is not. */
  lemma StillNamed(s: Before, mem: Memory, survivors: set<int>, moved: map<int, int>, big: int, small: int)
    requires Isomorphic(s.shells, s.mem, mem, survivors, s.big, moved) && Images(moved) !! survivors
    requires big in survivors && big in s.big && big !in moved && small in moved && small in survivors
    requires Names(s.shells, s.mem, big, small)
    ensures big in Relocated(moved, survivors) && Names(s.shells, mem, big, small)
            && small !in Relocated(moved, survivors)
  {
    hide MetaOk, Succ;
    assert Relocate(moved, big) == big;
    forall x | x in survivors
      ensures Relocate(moved, x) != small
    {
      if x in moved { assert moved[x] in Images(moved); }
    }
  }

  /** An array of 2000 is a big block, one pointer is not. */
  lemma Sizes(sh: Shell)
    requires sh == RowShell(1) && PAGE >= 64
    ensures Align(Bytes(sh, 2000)) > BIG_BLOCK_THRESHOLD >= Align(Bytes(sh, 1))
  {
  }

  lemma FirstTarget(shells: Shells, d: Payload, t: int)
    requires MetaOk(shells, d) && 3 < |d| && 3 in Fields(shells, d) && d[3] == WordTo(t, 0) && t > 0
    ensures t in Succ(shells, d)
  {
    assert !IsNullWord(d[3]) && TargetOf(d[3]) == t;
  }

  lemma NoEntries(t: seq<seq<Entry>>, seen: set<int>)
    requires |t| == 1 && t[0] == []
    ensures Pins(t, seen) == {}
  {
    forall w
      ensures !Finds(t, w)
    {
      if w % 2 == 0 { HashInside(w, 1); }
    }
  }

  lemma RootIs(shells: Shells, mem: Memory, roots: seq<seq<Word>>, b: int)
    requires roots == [[WordTo(b, 0)]] && b > 0 && b in mem && MetaOk(shells, mem[b])
    ensures ReachedFrom(shells, mem, RootTargets(roots) + {}, b)
  {
    assert IsPath(shells, mem, [b]);
    assert [b][0] == b && Reaches(shells, mem, b, b);
    assert TargetOf(roots[0][0]) in ChainTargets(roots[0]);
    assert b in RootTargets(roots);
  }

  lemma OnPage(h: Heap, b: int)
    requires h.Valid() && b in h.Live() && b !in h.big
    ensures b in PageBlocks(h.lay, h.firstPage) && Elems(h.big) !! PageBlocks(h.lay, h.firstPage)
  {
    BigOffPages(h);
  }
}
