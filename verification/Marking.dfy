/** The mark phase of go.cpp: traversal with an explicit stack of fixed size that drops what does
    not fit, and the recovery that rescans all marked blocks. */
module Marking {
  import opened Lists
  import opened Objects
  import opened Pages
  import opened Heaps
  import opened GoSpec

  /** Every field of d among `done` is null or points into s. */
  ghost predicate Covered(d: Payload, done: set<int>, s: set<int>) {
    forall k :: k in done && 0 <= k < |d| && !IsNullWord(d[k]) ==> TargetOf(d[k]) in s
  }

  lemma CoveredAll(shells: Shells, d: Payload, s: set<int>)
    requires MetaOk(shells, d)
    ensures Covered(d, Fields(shells, d), s) <==> Succ(shells, d) <= s
  {
  }

  /** The globals stack and stack_size; max_stack_size is the array's length. */
  class Marker {
    const stack: array<int>
    var stackSize: nat

    constructor (maxStackSize: nat)
      requires maxStackSize >= 1
      ensures stack.Length == maxStackSize && stackSize == 0 && fresh(stack)
    {
      stack := new int[maxStackSize](_ => NULL);
      stackSize := 0;
    }

    ghost function Content(): seq<int>
      reads this, stack
      requires stackSize <= stack.Length
    {
      stack[..stackSize]
    }

    method Push(b: int) returns (full: bool)
      requires stackSize <= stack.Length
      modifies `stackSize, stack
      ensures stackSize <= stack.Length
      ensures full <==> old(stackSize) == stack.Length
      ensures Content() == if full then old(Content()) else old(Content()) + [b]
    {
      if stackSize >= stack.Length {
        return true;
      }
      stack[stackSize] := b;
      stackSize := stackSize + 1;
      return false;
    }

    method Pop() returns (b: int)
      requires stackSize <= stack.Length
      modifies `stackSize
      ensures stackSize <= stack.Length
      ensures old(stackSize) == 0 ==> b == NULL && Content() == old(Content())
      ensures old(stackSize) > 0 ==> old(Content()) == Content() + [b]
    {
      if stackSize == 0 {
        return NULL;
      }
      stackSize := stackSize - 1;
      return stack[stackSize];
    }

    /** The innermost loop of go: the fields of the one object at byte `base` of block v. */
    method ScanRow(h: Heap, v: int, sh: Shell, base: int, overflow: bool, ghost below: seq<int>,
                   ghost done: set<int>) returns (overflow': bool)
      requires v in h.mem && PayloadOk(h.shells, h.mem[v]) && sh == h.shells[h.mem[v][1]]
      requires RowFields(sh, base) <= Fields(h.shells, h.mem[v])
      requires stackSize <= stack.Length
      requires ScanOk(Content(), stack.Length, below, h.shells, h.mem[v], done, h.marked, overflow)
      modifies `stackSize, stack
      ensures stackSize <= stack.Length
      ensures ScanOk(Content(), stack.Length, below, h.shells, h.mem[v], done + RowFields(sh, base), h.marked,
              overflow')
      ensures Scan(Content(), overflow') == ScanFields(h.mem[v], OffsetSeq(sh.offsets, base), h.marked, stack.Length,
              Scan(old(Content()), overflow))
    {
      hide PayloadOk, ScanOk, MetaOk, Fields, ScanFields, OffsetSeq;
      ghost var acc, all := done, ScanFields(h.mem[v], OffsetSeq(sh.offsets, base), h.marked, stack.Length,
                Scan(Content(), overflow));
      overflow' := overflow;
      var j := 0;
      assert OffsetFields(sh.offsets[..0], base) == {};
      assert done + {} == done && sh.offsets[0..] == sh.offsets;
      while j < |sh.offsets|
        invariant 0 <= j <= |sh.offsets| && acc == done + OffsetFields(sh.offsets[..j], base)
        invariant stackSize <= stack.Length
        invariant ScanOk(Content(), stack.Length, below, h.shells, h.mem[v], acc, h.marked, overflow')
        invariant ScanFields(h.mem[v], OffsetSeq(sh.offsets[j..], base), h.marked, stack.Length,
                  Scan(Content(), overflow')) == all
      {
        var k := FieldAt(base + sh.offsets[j]);
        RowStep(sh.offsets, base, j);
        NextField(h.mem[v], sh.offsets, base, j, h.marked, stack.Length, Scan(Content(), overflow'));
        ScanStep(Content(), stack.Length, below, h.shells, h.mem[v], acc, h.marked, overflow', k);
        var w := h.mem[v][k];
        if !IsNullWord(w) && TargetOf(w) !in h.marked {
          var full := Push(TargetOf(w));
          if full {
            overflow' := true;
          }
        }
        acc := acc + {k};
        j := j + 1;
      }
      assert sh.offsets[..j] == sh.offsets;
      LastField(h.mem[v], sh.offsets[j..], base, h.marked, stack.Length, Scan(Content(), overflow'));
    }

    /** The two scanning loops of go over the object block v. */
    method ScanObject(h: Heap, v: int, ghost below: seq<int>) returns (overflow: bool)
      requires v in h.mem && PayloadOk(h.shells, h.mem[v])
      requires stackSize < stack.Length && below == Content()
      modifies `stackSize, stack
      ensures stackSize <= stack.Length
      ensures ScanOk(Content(), stack.Length, below, h.shells, h.mem[v], Fields(h.shells, h.mem[v]), h.marked, overflow)
      ensures Scan(Content(), overflow) == ScanFields(h.mem[v], ScanSeq(h.shells, h.mem[v]), h.marked, stack.Length,
              Scan(below, false))
    {
      hide ScanOk, RowFields, ScanFields, OffsetSeq, RowsSeq;
      ghost var all := ScanFields(h.mem[v], ScanSeq(h.shells, h.mem[v]), h.marked, stack.Length, Scan(below, false));
      var sh := ShellOf(h.shells, h.mem[v]);
      var count := Value(h.mem[v][2]);
      ghost var done: set<int> := {};
      overflow := false;
      ScanNone(below, stack.Length, h.shells, h.mem[v], h.marked);
      var base, i := 0, 0;
      while i < count
        invariant 0 <= i <= count && stackSize <= stack.Length
        invariant done + FieldsFrom(sh, base, count - i) == Fields(h.shells, h.mem[v])
        invariant ScanOk(Content(), stack.Length, below, h.shells, h.mem[v], done, h.marked, overflow)
        invariant ScanFields(h.mem[v], RowsSeq(sh, base, count - i), h.marked, stack.Length,
                  Scan(Content(), overflow)) == all
      {
        NextRow(h.mem[v], sh, base, count - i, h.marked, stack.Length, Scan(Content(), overflow));
        overflow := ScanRow(h, v, sh, base, overflow, below, done);
        done := done + RowFields(sh, base);
        base := base + sh.size;
        i := i + 1;
      }
      LastRow(h.mem[v], sh, base, h.marked, stack.Length, Scan(Content(), overflow));
    }

    /** One round of go's loop. A round on an unmarked block marks it; any other leaves the stack
        lower, or with an unmarked block on top. */
    method Round(h: Heap, overflow: bool, ghost u: set<int>, ghost root: int, ghost m0: set<int>,
                 ghost scanned: set<int>, ghost start: GoState, ghost n: nat)
      returns (overflow': bool, ghost scanned': set<int>)
      requires 0 < stackSize <= stack.Length && Graph(h.shells, h.mem, u, {})
      requires GoInv(h.shells, h.mem, u, root, Content(), m0, h.marked, scanned, overflow)
      requires GoRounds(h.shells, h.mem, stack.Length, start, n) == GoState(Content(), h.marked, overflow)
      modifies `stackSize, stack, h`marked
      ensures stackSize <= stack.Length
      ensures GoInv(h.shells, h.mem, u, root, Content(), m0, h.marked, scanned', overflow')
      ensures GoRounds(h.shells, h.mem, stack.Length, start, n + 1) == GoState(Content(), h.marked, overflow')
      ensures var v := old(Content())[old(stackSize) - 1];
        && v in u && h.marked == old(h.marked) + {v}
        && (v in old(h.marked) ==>
          stackSize < old(stackSize)
          || (stackSize > 0 && Content()[stackSize - 1] !in h.marked))
    {
      hide Graph, GoInv, Reaches, ScanOk, Succ, PayloadOk, GoRounds, ScanFields, ScanSeq;
      ghost var content, marked := Content(), h.marked;
      var v := Pop();
      ghost var below := Content();
      GoTop(h.shells, h.mem, u, root, below, v, m0, h.marked, scanned, overflow);
      if v !in h.marked {
        h.marked := h.marked + {v};
      }
      assert h.marked == marked + {v};
      var dropped := ScanObject(h, v, below);
      GoStep(h.shells, h.mem, u, root, below, v, Content(), stack.Length, m0, marked, h.marked, scanned, overflow,
        dropped);
      OneRound(h.shells, h.mem, stack.Length, start, n, content, v, below, marked, overflow, Content(), dropped);
      overflow' := overflow || dropped;
      scanned' := scanned + {v};
    }

    /** go on the object block b, which the pointer passed by the caller names. */
    method Go(h: Heap, b: int, pinRoot: bool, ghost u: set<int>) returns (overflow: bool)
      requires stack.Length >= 1 && Graph(h.shells, h.mem, u, {}) && (b in u || b == NULL || b !in h.mem)
      modifies `stackSize, stack, h`marked, h`pinned
      ensures b == NULL || b !in h.mem ==> !overflow && h.marked == old(h.marked) && h.pinned == old(h.pinned)
      ensures b != NULL && b in u ==> GoPost(h.shells, h.mem, u, b, old(h.marked), h.marked, overflow)
      ensures b != NULL && b in u ==> h.pinned == if pinRoot then old(h.pinned) + {b} else old(h.pinned)
      ensures b != NULL && b in u ==> GoExact(h.shells, h.mem, stack.Length, b, old(h.marked), h.marked, overflow)
    {
      hide Graph, GoInv, Reaches, ScanOk, Succ, PayloadOk, GoRounds, ScanFields, ScanSeq;
      BlockMapped(h.shells, h.mem, u, b);
      if b == NULL || b !in h.mem {
        return false;
      }
      if pinRoot {
        h.pinned := h.pinned + {b};
      }
      stackSize := 1;
      stack[0] := b;
      overflow := false;
      assert Content() == [b];
      GoStart(h.shells, h.mem, u, b, h.marked);
      ghost var m0, scanned: set<int> := h.marked, {};
      ghost var start, n := GoState([b], m0, false), 0;
      NoRounds(h.shells, h.mem, stack.Length, start);
      while stackSize != 0
        invariant stackSize <= stack.Length
        invariant GoInv(h.shells, h.mem, u, b, Content(), m0, h.marked, scanned, overflow)
        invariant h.pinned == if pinRoot then old(h.pinned) + {b} else old(h.pinned)
        invariant n >= 0 && GoRounds(h.shells, h.mem, stack.Length, start, n) == GoState(Content(), h.marked, overflow)
        decreases u - h.marked, if stackSize > 0 && Content()[stackSize - 1] !in h.marked then 0 else stackSize
      {
        overflow, scanned := Round(h, overflow, u, b, m0, scanned, start, n);
        n := n + 1;
      }
      GoEnd(h.shells, h.mem, u, b, m0, h.marked, scanned, overflow);
    }

    /** One block's turn in mark_after_overflow. */
    method Rescan(h: Heap, b: int, overflow: bool, ghost u: set<int>, ghost seeds: set<int>, ghost m0: set<int>,
                  ghost visited: set<int>) returns (overflow': bool)
      requires stack.Length >= 1 && Graph(h.shells, h.mem, u, {}) && b > NULL && (b in h.marked ==> b in u)
      requires RescanInv(h.shells, h.mem, u, seeds, m0, h.marked, visited, overflow)
      modifies `stackSize, stack, h`marked, h`pinned
      ensures RescanInv(h.shells, h.mem, u, seeds, m0, h.marked, visited + {b}, overflow')
      ensures h.pinned == old(h.pinned)
    {
      hide Graph, RescanInv, GoPost;
      overflow' := overflow;
      if b in h.marked {
        var dropped := Go(h, b, false, u);
        RescanMarked(h.shells, h.mem, u, seeds, m0, old(h.marked), h.marked, visited, b, overflow, dropped);
        if dropped {
          overflow' := true;
        }
      } else {
        RescanSkip(h.shells, h.mem, u, seeds, m0, h.marked, visited, b, overflow);
      }
    }

    method RescanPage(h: Heap, p: int, overflow: bool, ghost u: set<int>, ghost seeds: set<int>, ghost m0: set<int>,
                      ghost visited: set<int>) returns (overflow': bool)
      requires p in h.hdr && p in h.lay && PageOk(h.mem, p, h.hdr[p], h.lay[p])
      requires stack.Length >= 1 && Graph(h.shells, h.mem, u, {}) && (forall b :: b in h.lay[p] ==> b > NULL)
      requires m0 * Elems(h.lay[p]) <= u
      requires RescanInv(h.shells, h.mem, u, seeds, m0, h.marked, visited, overflow)
      modifies `stackSize, stack, h`marked, h`pinned
      ensures RescanInv(h.shells, h.mem, u, seeds, m0, h.marked, visited + Elems(h.lay[p]), overflow')
      ensures h.pinned == old(h.pinned)
    {
      hide Graph, RescanInv, PageOk, Pos, Elems;
      ghost var bs, i := h.lay[p], 0;
      var b := p + PAGE_HEADER;
      overflow' := overflow;
      assert bs[..0] == [];
      KeepNone({});
      assert visited + {} == visited;
      WalkStep(h.mem, p, h.hdr[p], bs, 0);
      while b != h.hdr[p].free
        invariant 0 <= i <= |bs| && b == Pos(bs, h.hdr[p].free, i) && h.pinned == old(h.pinned)
        invariant RescanInv(h.shells, h.mem, u, seeds, m0, h.marked, visited + Elems(bs[..i]), overflow')
        decreases |bs| - i
      {
        WalkStep(h.mem, p, h.hdr[p], bs, i);
        ElemsHas(bs, i);
        RescanBound(h.shells, h.mem, u, seeds, m0, h.marked, visited + Elems(bs[..i]), overflow');
        overflow' := Rescan(h, b, overflow', u, seeds, m0, visited + Elems(bs[..i]));
        assert visited + Elems(bs[..i]) + {b} == visited + Elems(bs[..i + 1]);
        b := NextBlock(h.mem, b);
        i := i + 1;
      }
      WalkStep(h.mem, p, h.hdr[p], bs, i);
      assert bs[..i] == bs;
    }

    /** mark_after_overflow: every marked block is traversed again, big blocks first. */
    method MarkAfterOverflow(h: Heap, ghost u: set<int>, ghost seeds: set<int>) returns (overflow: bool)
      requires h.Supply(h.firstPage) && stack.Length >= 1 && Graph(h.shells, h.mem, u, {})
      requires h.marked * h.Blocks() <= u <= h.Blocks() && Sound(h.shells, h.mem, u, seeds, h.marked)
      modifies `stackSize, stack, h`marked, h`pinned
      ensures old(h.marked) <= h.marked <= old(h.marked) + u && Sound(h.shells, h.mem, u, seeds, h.marked)
      ensures !overflow ==> MarksClosed(h.shells, h.mem, u, h.marked)
      ensures overflow ==> h.marked != old(h.marked)
      ensures h.pinned == old(h.pinned)
    {
      hide Graph, RescanInv, PageOk, PagesOk, AreasOk, NoDup, Elems, PageBlocks, Sound, MarksClosed, Heap.Supply;
      ghost var m0, visited: set<int> := h.marked, {};
      RescanStart(h.shells, h.mem, u, seeds, m0);
      BlocksMapped(h);
      overflow := false;
      var i := 0;
      assert h.big[..0] == [] && h.firstPage[..0] == [];
      KeepNone({});
      NoBlocks(h.lay);
      while i < |h.big|
        invariant 0 <= i <= |h.big| && h.pinned == old(h.pinned)
        invariant RescanInv(h.shells, h.mem, u, seeds, m0, h.marked, Elems(h.big[..i]), overflow)
      {
        ElemsHas(h.big, i);
        ElemsNext(h.big, i);
        RescanBound(h.shells, h.mem, u, seeds, m0, h.marked, Elems(h.big[..i]), overflow);
        overflow := Rescan(h, h.big[i], overflow, u, seeds, m0, Elems(h.big[..i]));
        i := i + 1;
      }
      assert h.big[..i] == h.big;
      i := 0;
      assert Elems(h.big) + {} == Elems(h.big);
      while i < |h.firstPage|
        invariant 0 <= i <= |h.firstPage| && h.pinned == old(h.pinned)
        invariant RescanInv(h.shells, h.mem, u, seeds, m0, h.marked,
                  Elems(h.big) + PageBlocks(h.lay, h.firstPage[..i]), overflow)
      {
        var p := h.firstPage[i];
        NextPage(h, i);
        overflow := RescanPage(h, p, overflow, u, seeds, m0, Elems(h.big) + PageBlocks(h.lay, h.firstPage[..i]));
        assert Elems(h.big) + PageBlocks(h.lay, h.firstPage[..i]) + Elems(h.lay[p])
               == Elems(h.big) + PageBlocks(h.lay, h.firstPage[..i + 1]);
        i := i + 1;
      }
      assert h.firstPage[..i] == h.firstPage;
      assert Elems(h.big) + PageBlocks(h.lay, h.firstPage) == h.Blocks();
      RescanEnd(h.shells, h.mem, u, seeds, m0, h.marked, h.Blocks(), overflow);
    }

    /** The traversals from the registered roots of one thread. */
    method MarkRoots(h: Heap, chain: seq<Word>, ghost u: set<int>, ghost seeds: set<int>) returns (overflow: bool)
      requires stack.Length >= 1 && Graph(h.shells, h.mem, u, {}) && NULL !in u && ChainInto(chain, u)
      requires Sound(h.shells, h.mem, u, seeds, h.marked) && ChainTargets(chain) <= seeds
      modifies `stackSize, stack, h`marked, h`pinned
      ensures MarkStep(h.shells, h.mem, u, seeds, old(h.marked), h.marked, overflow)
      ensures ChainTargets(chain) <= h.marked && h.pinned == old(h.pinned)
      ensures GoAll(h.shells, h.mem, stack.Length, TargetSeq(chain), old(h.marked), h.marked, overflow)
    {
      hide Graph, Sound, GoPost, MarkStep, ChainInto, ChainTargets, GoAll, GoExact, TargetSeq;
      overflow := false;
      ghost var m0 := h.marked;
      MarkNothing(h.shells, h.mem, u, seeds, m0);
      GoNone(h.shells, h.mem, stack.Length, m0);
      var i := 0;
      NoTargets(chain[..0]);
      while i < |chain|
        invariant 0 <= i <= |chain| && h.pinned == old(h.pinned) && ChainTargets(chain[..i]) <= h.marked
        invariant MarkStep(h.shells, h.mem, u, seeds, m0, h.marked, overflow)
        invariant GoAll(h.shells, h.mem, stack.Length, TargetSeq(chain[..i]), m0, h.marked, overflow)
      {
        var w := chain[i];
        MoreTargets(chain, i);
        ghost var m1 := h.marked;
        NextTarget(chain, u, seeds, i);
        if IsNullWord(w) {
          var dropped := Go(h, NULL, false, u);
        } else {
          var dropped := Go(h, TargetOf(w), false, u);
          MarkMore(h.shells, h.mem, u, seeds, m0, m1, h.marked, TargetOf(w), overflow, dropped);
          GoOneMore(h.shells, h.mem, stack.Length, TargetSeq(chain[..i]), TargetOf(w), m0, m1, overflow, h.marked,
            dropped);
          overflow := overflow || dropped;
        }
        i := i + 1;
      }
      assert chain[..i] == chain;
    }

    /** The recovery loop of mark_and_sweep. It ends because a round that asks for another one has
        marked a block. */
    method Recover(h: Heap, overflow: bool, ghost u: set<int>, ghost seeds: set<int>)
      requires h.Supply(h.firstPage) && stack.Length >= 1 && Graph(h.shells, h.mem, u, {})
      requires h.marked * h.Blocks() <= u <= h.Blocks() && Sound(h.shells, h.mem, u, seeds, h.marked)
      requires !overflow ==> MarksClosed(h.shells, h.mem, u, h.marked)
      modifies `stackSize, stack, h`marked, h`pinned
      ensures old(h.marked) <= h.marked <= old(h.marked) + u && Sound(h.shells, h.mem, u, seeds, h.marked)
      ensures MarksClosed(h.shells, h.mem, u, h.marked) && h.pinned == old(h.pinned)
    {
      hide Graph, Sound, MarksClosed, Heap.Supply;
      var again := overflow;
      while again
        invariant old(h.marked) <= h.marked <= old(h.marked) + u && h.pinned == old(h.pinned)
        invariant Sound(h.shells, h.mem, u, seeds, h.marked)
        invariant !again ==> MarksClosed(h.shells, h.mem, u, h.marked)
        decreases u - h.marked, again
      {
        ghost var m := h.marked;
        again := MarkAfterOverflow(h, u, seeds);
        if again { LeftToMark(u, m, h.marked); }
      }
    }
  }

  /** Scanning payload d has put unmarked successors of d on the stack above `below`, enough to cover
      the fields in `done` unless something was dropped; and that takes a full stack. */
  ghost predicate ScanOk(content: seq<int>, cap: nat, below: seq<int>, shells: Shells, d: Payload, done: set<int>,
                         marked: set<int>, overflow: bool) {
    && MetaOk(shells, d)
    && |content| <= cap && |below| < cap && below <= content
    && (forall i :: |below| <= i < |content| ==> content[i] !in marked && content[i] in Succ(shells, d))
    && (overflow ==> |content| == cap)
    && (!overflow ==> Covered(d, done, marked + Elems(content)))
  }

  lemma ScanNone(below: seq<int>, cap: nat, shells: Shells, d: Payload, marked: set<int>)
    requires |below| < cap && MetaOk(shells, d)
    ensures ScanOk(below, cap, below, shells, d, {}, marked, false)
  {
  }

  /** One field: skipped, pushed, or dropped. */
  lemma ScanStep(content: seq<int>, cap: nat, below: seq<int>, shells: Shells, d: Payload, done: set<int>,
                 marked: set<int>, overflow: bool, k: int)
    requires ScanOk(content, cap, below, shells, d, done, marked, overflow) && k in Fields(shells, d)
    ensures 0 <= k < |d|
    ensures IsNullWord(d[k]) || TargetOf(d[k]) in marked ==>
            ScanOk(content, cap, below, shells, d, done + {k}, marked, overflow)
    ensures !IsNullWord(d[k]) && TargetOf(d[k]) !in marked ==>
      && (|content| == cap ==> ScanOk(content, cap, below, shells, d, done + {k}, marked, true))
      && (|content| < cap ==> ScanOk(content + [TargetOf(d[k])], cap, below, shells, d, done + {k}, marked, overflow))
  {
    FieldsInPayload(shells, d);
    var t := TargetOf(d[k]);
    if !IsNullWord(d[k]) {
      assert t in Succ(shells, d);
      assert Elems(content + [t]) == Elems(content) + {t};
    }
  }

  // ----- one traversal -----

  /** go has marked only what the root reaches; if nothing was dropped, the successors of all it has
      marked, and of the root, are marked; and if something was dropped, it has marked something. */
  ghost predicate GoPost(shells: Shells, mem: Memory, u: set<int>, root: int, m0: set<int>, marked: set<int>,
                    overflow: bool) {
    && m0 <= marked <= m0 + u && root in marked && root in u
    && (forall x :: x in marked - m0 ==> Reaches(shells, mem, root, x))
    && (!overflow ==> forall x :: x in marked && (x == root || x !in m0) ==>
      x in mem && MetaOk(shells, mem[x]) && Succ(shells, mem[x]) <= marked)
    && (overflow ==> m0 != marked)
  }

  /** The loop invariant of go. `scanned` are the blocks taken off the stack so far. */
  ghost predicate GoInv(shells: Shells, mem: Memory, u: set<int>, root: int, content: seq<int>, m0: set<int>,
                        marked: set<int>, scanned: set<int>, overflow: bool) {
    && root in u && m0 <= marked <= m0 + u && scanned <= u && scanned <= marked && marked - m0 <= scanned
    && (forall i :: 0 <= i < |content| ==> content[i] in u && Reaches(shells, mem, root, content[i]))
    && (forall x :: x in scanned ==> x in mem && MetaOk(shells, mem[x]) && Reaches(shells, mem, root, x))
    && (!overflow ==> forall x :: x in scanned ==>
      x in mem && MetaOk(shells, mem[x]) && Succ(shells, mem[x]) <= marked + Elems(content))
    && (overflow ==> m0 != marked || (content != [] && content[|content| - 1] !in marked))
    && (root in scanned || content == [root])
  }

  lemma BlockMapped(shells: Shells, mem: Memory, u: set<int>, b: int)
    requires Graph(shells, mem, u, {})
    ensures b in u ==> b in mem && PayloadOk(shells, mem[b])
  {
  }

  lemma NextField(d: Payload, offsets: seq<int>, base: int, j: nat, marked: set<int>, cap: nat, s: Scan)
    requires j < |offsets|
    ensures ScanFields(d, OffsetSeq(offsets[j..], base), marked, cap, s)
         == ScanFields(d, OffsetSeq(offsets[j + 1..], base), marked, cap,
           PushField(d, FieldAt(base + offsets[j]), marked, cap, s))
  {
  }

  lemma LastField(d: Payload, offsets: seq<int>, base: int, marked: set<int>, cap: nat, s: Scan)
    requires offsets == []
    ensures ScanFields(d, OffsetSeq(offsets, base), marked, cap, s) == s
  {
  }

  lemma NextRow(d: Payload, sh: Shell, base: int, n: nat, marked: set<int>, cap: nat, s: Scan)
    requires n > 0
    ensures ScanFields(d, RowsSeq(sh, base, n), marked, cap, s)
         == ScanFields(d, RowsSeq(sh, base + sh.size, n - 1), marked, cap,
           ScanFields(d, OffsetSeq(sh.offsets, base), marked, cap, s))
  {
    ScanConcat(d, OffsetSeq(sh.offsets, base), RowsSeq(sh, base + sh.size, n - 1), marked, cap, s);
  }

  lemma LastRow(d: Payload, sh: Shell, base: int, marked: set<int>, cap: nat, s: Scan)
    ensures ScanFields(d, RowsSeq(sh, base, 0), marked, cap, s) == s
  {
  }

  lemma NoRounds(shells: Shells, mem: Memory, cap: nat, s: GoState)
    ensures GoRounds(shells, mem, cap, s, 0) == s
  {
  }

  lemma OneRound(shells: Shells, mem: Memory, cap: nat, start: GoState, n: nat, content: seq<int>, v: int,
                 below: seq<int>, marked: set<int>, overflow: bool, content': seq<int>, dropped: bool)
    requires content == below + [v] && v in mem && MetaOk(shells, mem[v])
    requires GoRounds(shells, mem, cap, start, n) == GoState(content, marked, overflow)
    requires Scan(content', dropped) == ScanFields(mem[v], ScanSeq(shells, mem[v]), marked + {v}, cap,
             Scan(below, false))
    ensures GoRounds(shells, mem, cap, start, n + 1) == GoState(content', marked + {v}, overflow || dropped)
  {
  }

  lemma GoStart(shells: Shells, mem: Memory, u: set<int>, root: int, m0: set<int>)
    requires Graph(shells, mem, u, {}) && root in u
    ensures GoInv(shells, mem, u, root, [root], m0, m0, {}, false)
  {
  }

  lemma GoTop(shells: Shells, mem: Memory, u: set<int>, root: int, below: seq<int>, v: int, m0: set<int>,
              marked: set<int>, scanned: set<int>, overflow: bool)
    requires Graph(shells, mem, u, {}) && GoInv(shells, mem, u, root, below + [v], m0, marked, scanned, overflow)
    ensures v in u && v in mem && PayloadOk(shells, mem[v]) && MetaOk(shells, mem[v])
  {
    assert (below + [v])[|below|] == v;
  }

  /** Taking v off the stack, marking it and scanning it. */
  lemma GoStep(shells: Shells, mem: Memory, u: set<int>, root: int, below: seq<int>, v: int, content: seq<int>,
               cap: nat, m0: set<int>, marked: set<int>, marked': set<int>, scanned: set<int>, overflow: bool,
               dropped: bool)
    requires Graph(shells, mem, u, {}) && GoInv(shells, mem, u, root, below + [v], m0, marked, scanned, overflow)
    requires marked' == marked + {v} && v in u && v in mem && PayloadOk(shells, mem[v])
    requires ScanOk(content, cap, below, shells, mem[v], Fields(shells, mem[v]), marked', dropped)
    ensures GoInv(shells, mem, u, root, content, m0, marked', scanned + {v}, overflow || dropped)
    ensures v in marked ==>
            marked' == marked && (content == below
            || (|content| > 0 && content[|content| - 1] !in marked'))
  {
    var old_ := below + [v];
    assert old_[|below|] == v;
    assert forall i :: 0 <= i < |below| ==> old_[i] == below[i] && content[i] == below[i];
    forall i | |below| <= i < |content|
      ensures content[i] in u && Reaches(shells, mem, root, content[i])
    {
      ReachesStep(shells, mem, root, v, content[i]);
    }
    assert Elems(old_) == Elems(below) + {v};
    assert Elems(below) <= Elems(content);
    if !dropped {
      CoveredAll(shells, mem[v], marked' + Elems(content));
    }
  }

  lemma GoEnd(shells: Shells, mem: Memory, u: set<int>, root: int, m0: set<int>, marked: set<int>, scanned: set<int>,
              overflow: bool)
    requires GoInv(shells, mem, u, root, [], m0, marked, scanned, overflow)
    ensures GoPost(shells, mem, u, root, m0, marked, overflow)
  {
  }

  // ----- recovery after an overflow -----

  /** Whatever is marked is reached from the seeds. */
  ghost predicate Sound(shells: Shells, mem: Memory, u: set<int>, seeds: set<int>, marked: set<int>) {
    forall x :: x in marked * u ==> ReachedFrom(shells, mem, seeds, x)
  }

  /** No marked block points to an unmarked one. */
  ghost predicate MarksClosed(shells: Shells, mem: Memory, u: set<int>, marked: set<int>) {
    forall x :: x in marked * u ==> x in mem && MetaOk(shells, mem[x]) && Succ(shells, mem[x]) <= marked
  }

  /** While nothing more is dropped, the visited blocks and the newly marked ones have no unmarked
      successor; if something is, something has been marked. */
  ghost predicate RescanInv(shells: Shells, mem: Memory, u: set<int>, seeds: set<int>, m0: set<int>, marked: set<int>,
                            visited: set<int>, overflow: bool) {
    && m0 <= marked <= m0 + u
    && Sound(shells, mem, u, seeds, marked)
    && (!overflow ==> forall x :: x in marked * u && (x in visited || x !in m0) ==>
      x in mem && MetaOk(shells, mem[x]) && Succ(shells, mem[x]) <= marked)
    && (overflow ==> m0 != marked)
  }

  lemma RescanStart(shells: Shells, mem: Memory, u: set<int>, seeds: set<int>, m0: set<int>)
    requires Sound(shells, mem, u, seeds, m0)
    ensures RescanInv(shells, mem, u, seeds, m0, m0, {}, false)
  {
  }

  lemma RescanBound(shells: Shells, mem: Memory, u: set<int>, seeds: set<int>, m0: set<int>, marked: set<int>,
                    visited: set<int>, overflow: bool)
    requires RescanInv(shells, mem, u, seeds, m0, marked, visited, overflow)
    ensures m0 <= marked <= m0 + u
  {
  }

  lemma RescanSkip(shells: Shells, mem: Memory, u: set<int>, seeds: set<int>, m0: set<int>, marked: set<int>,
                   visited: set<int>, b: int, overflow: bool)
    requires RescanInv(shells, mem, u, seeds, m0, marked, visited, overflow) && b !in marked
    ensures RescanInv(shells, mem, u, seeds, m0, marked, visited + {b}, overflow)
  {
  }

  lemma RescanMarked(shells: Shells, mem: Memory, u: set<int>, seeds: set<int>, m0: set<int>, marked: set<int>,
                     marked': set<int>, visited: set<int>, b: int, overflow: bool, dropped: bool)
    requires RescanInv(shells, mem, u, seeds, m0, marked, visited, overflow) && b in marked * u
    requires GoPost(shells, mem, u, b, marked, marked', dropped)
    ensures RescanInv(shells, mem, u, seeds, m0, marked', visited + {b}, overflow || dropped)
  {
    forall x | x in marked' * u
      ensures ReachedFrom(shells, mem, seeds, x)
    {
      if x !in marked {
        assert b in marked * u;
        ReachedOn(shells, mem, seeds, b, x);
      } else {
        assert x in marked * u;
      }
    }
    if !overflow && !dropped {
      forall x | x in marked' * u && (x in visited + {b} || x !in m0)
        ensures x in mem && MetaOk(shells, mem[x]) && Succ(shells, mem[x]) <= marked'
      {
        if x in marked && x != b { assert x in marked * u; }
      }
    }
  }

  lemma RescanEnd(shells: Shells, mem: Memory, u: set<int>, seeds: set<int>, m0: set<int>, marked: set<int>,
                  visited: set<int>, overflow: bool)
    requires RescanInv(shells, mem, u, seeds, m0, marked, visited, overflow) && u <= visited
    ensures m0 <= marked <= m0 + u && Sound(shells, mem, u, seeds, marked)
    ensures !overflow ==> MarksClosed(shells, mem, u, marked)
    ensures overflow ==> m0 != marked
  {
  }

  lemma ElemsNext(s: seq<int>, i: nat)
    requires i < |s|
    ensures Elems(s[..i + 1]) == Elems(s[..i]) + {s[i]}
  {
  }

  /** Block addresses are positive. */
  lemma BlocksMapped(h: Heap)
    requires h.Supply(h.firstPage)
    ensures (forall b :: b in h.Blocks() ==> b > NULL) && forall i :: 0 <= i < |h.big| ==> h.big[i] in h.Blocks()
  {
    ElemsJoin(h.firstPage, h.pool);
    BigMapped(h.mem, Elems(h.firstPage + h.pool), h.big, h.brk);
    forall p, b | p in h.firstPage && b in h.lay[p]
      ensures b > NULL
    {
      assert p in Elems(h.firstPage + h.pool);
      BlockInPage(h.mem, p, h.hdr[p], h.lay[p], b);
    }
  }

  lemma NextPage(h: Heap, i: nat)
    requires h.Supply(h.firstPage) && i < |h.firstPage|
    ensures var p := h.firstPage[i];
      && p in h.hdr && p in h.lay && PageOk(h.mem, p, h.hdr[p], h.lay[p])
      && PageBlocks(h.lay, h.firstPage[..i + 1]) == PageBlocks(h.lay, h.firstPage[..i]) + Elems(h.lay[p])
      && Elems(h.lay[p]) <= h.Blocks() && (forall b :: b in h.lay[p] ==> b > NULL)
  {
    var p := h.firstPage[i];
    assert p in h.firstPage;
    BlocksMapped(h);
    assert h.firstPage[..i + 1] == h.firstPage[..i] + [p];
    MoreBlocks(h.lay, h.firstPage[..i], p);
    forall b | b in h.lay[p]
      ensures b in h.Blocks()
    {
      assert b in PageBlocks(h.lay, h.firstPage);
    }
  }

  // ----- traversals one after the other -----

  /** Traversals from m0 to marked: everything marked is reached from the seeds, and if nothing was
      dropped, nothing newly marked has an unmarked successor. */
  ghost predicate MarkStep(shells: Shells, mem: Memory, u: set<int>, seeds: set<int>, m0: set<int>, marked: set<int>,
                           overflow: bool) {
    && m0 <= marked <= m0 + u && Sound(shells, mem, u, seeds, marked)
    && (!overflow ==> forall x :: x in marked && x !in m0 ==>
      x in mem && MetaOk(shells, mem[x]) && Succ(shells, mem[x]) <= marked)
  }

  lemma MarkNothing(shells: Shells, mem: Memory, u: set<int>, seeds: set<int>, m0: set<int>)
    requires Sound(shells, mem, u, seeds, m0)
    ensures MarkStep(shells, mem, u, seeds, m0, m0, false)
  {
  }

  lemma MarkMore(shells: Shells, mem: Memory, u: set<int>, seeds: set<int>, m0: set<int>, m1: set<int>, m2: set<int>,
                 root: int, overflow: bool, dropped: bool)
    requires MarkStep(shells, mem, u, seeds, m0, m1, overflow) && GoPost(shells, mem, u, root, m1, m2, dropped)
             && root in seeds
    ensures MarkStep(shells, mem, u, seeds, m0, m2, overflow || dropped) && m1 <= m2 && root in m2
  {
  }

  /** Closed marks stay closed over traversals that drop nothing. */
  lemma ClosedOn(shells: Shells, mem: Memory, u: set<int>, seeds: set<int>, m0: set<int>, marked: set<int>)
    requires MarksClosed(shells, mem, u, m0) && MarkStep(shells, mem, u, seeds, m0, marked, false)
    ensures MarksClosed(shells, mem, u, marked)
  {
    forall x | x in marked * u
      ensures x in mem && MetaOk(shells, mem[x]) && Succ(shells, mem[x]) <= marked
    {
      if x in m0 { assert x in m0 * u; }
    }
  }

  ghost predicate ChainInto(chain: seq<Word>, u: set<int>) {
    forall i :: 0 <= i < |chain| ==> RootInto(chain[i], u)
  }

  /** The blocks that a chain of root words names. */
  ghost function ChainTargets(chain: seq<Word>): set<int> {
    set i | 0 <= i < |chain| && !IsNullWord(chain[i]) :: TargetOf(chain[i])
  }

  /** The same, in the order in which they are traversed. */
  function TargetSeq(chain: seq<Word>): seq<int> {
    if chain == [] then []
    else
      var w := chain[|chain| - 1];
      if IsNullWord(w) then TargetSeq(chain[..|chain| - 1]) else TargetSeq(chain[..|chain| - 1]) + [TargetOf(w)]
  }

  lemma MoreTargets(chain: seq<Word>, i: nat)
    requires i < |chain|
    ensures TargetSeq(chain[..i + 1]) ==
      if IsNullWord(chain[i]) then TargetSeq(chain[..i]) else TargetSeq(chain[..i]) + [TargetOf(chain[i])]
  {
    assert chain[..i + 1][..i] == chain[..i];
  }

  lemma NoTargets(chain: seq<Word>)
    requires chain == []
    ensures ChainTargets(chain) == {} && TargetSeq(chain) == []
  {
  }

  lemma NextTarget(chain: seq<Word>, u: set<int>, seeds: set<int>, i: nat)
    requires i < |chain| && ChainInto(chain, u) && ChainTargets(chain) <= seeds
    ensures var w := chain[i];
      && (!IsNullWord(w) ==> TargetOf(w) in u && TargetOf(w) in seeds)
      && ChainTargets(chain[..i + 1]) == ChainTargets(chain[..i]) + (if IsNullWord(w) then {} else {TargetOf(w)})
  {
  }

  lemma LeftToMark(u: set<int>, m: set<int>, marked: set<int>)
    requires m <= marked <= m + u && m != marked
    ensures u - marked < u - m
  {
  }
}
