/** The list of running threads and the pool its handlers come from (threading.cpp). */
module ThreadLists {
  import opened Lists
  import opened Chains

  const HANDLER: int := 72                        // sizeof(thread_handler)
  const NUM_OF_HANDLERS: int := 4096 / HANDLER
  const STATIC_HANDLERS: int := 32

  /** The threads of the handlers s. */
  function Ids(thread: map<int, int>, s: seq<int>): (r: seq<int>)
    ensures |r| == |s| && forall i :: 0 <= i < |s| ==> r[i] == if s[i] in thread then thread[s[i]] else 0
  {
    seq(|s|, i requires 0 <= i < |s| => if s[i] in thread then thread[s[i]] else 0)
  }

  /** The list without its first t, as unlinking leaves it. */
  function Unlinked(s: seq<int>, t: int): seq<int> {
    if s == [] then [] else if s[0] == t then s[1..] else [s[0]] + Unlinked(s[1..], t)
  }

  /** Unlinking takes away one occurrence and disturbs neither the others nor their order. */
  lemma {:induction false} UnlinkedAt(s: seq<int>, t: int, k: nat)
    requires k < |s| && s[k] == t && forall i :: 0 <= i < k ==> s[i] != t
    ensures Unlinked(s, t) == Drop(s, k)
  {
    if k > 0 {
      var r := s[1..];
      UnlinkedAt(r, t, k - 1);
      ConsAppend(s[0], r[..k - 1], r[k..]);
      assert [s[0]] + r[..k - 1] == s[..k] && r[k..] == s[k + 1..];
    }
  }

  lemma ConsAppend(x: int, a: seq<int>, b: seq<int>)
    ensures [x] + (a + b) == ([x] + a) + b
  {
  }

  lemma UnlinkedElems(s: seq<int>, t: int)
    requires NoDup(s) && t in s
    ensures NoDup(Unlinked(s, t)) && Elems(Unlinked(s, t)) == Elems(s) - {t} && |Unlinked(s, t)| == |s| - 1
    ensures forall u :: u in Unlinked(s, t) <==> u in s && u != t
  {
    var k :| 0 <= k < |s| && s[k] == t;
    UnlinkedAt(s, t, k);
    DropFacts(s, k);
    assert forall u :: u in Unlinked(s, t) <==> u in Elems(Unlinked(s, t));
  }

  class ThreadList {
    var firstThread: int
    var freeList: int
    var next: Links
    var thread: map<int, int>           // the thread field of each handler
    var init: bool                      // the static handlers are in use
    var moreThanOne: bool
    var brk: int                        // handlers lie below
    ghost var live: seq<int>            // the handlers of the thread list, and
    ghost var free: seq<int>            // those of the pool

    constructor ()
      ensures Valid() && Threads() == [] && free == [] && !init && !moreThanOne && next == map[] && thread == map[]
    {
      firstThread, freeList, next, thread := 0, 0, map[], map[];
      init, moreThanOne, brk := false, false, HANDLER;
      live, free := [], [];
    }

    ghost function Threads(): seq<int>
      reads `thread, `live
    {
      Ids(thread, live)
    }

    /** Both lists are finite and share no handler, no thread is listed twice, and the flag that
        turns safepoints on is exact. */
    ghost predicate Valid()
      reads this
    {
      && Chain(next, firstThread, live) && Chain(next, freeList, free) && Elems(live) !! Elems(free)
      && (forall a :: a in live ==> a in thread) && NoDup(Threads())
      && moreThanOne == (|live| > 1)
      && 0 < brk && forall a :: a in Handlers() ==> a < brk
    }

    ghost function Handlers(): set<int>
      reads `live, `free
    {
      Elems(live) + Elems(free)
    }

    /** new_thread_handler: from the pool, which is refilled first with the static handlers and
        then with a page at a time. The handler it returns is in neither list. */
    method NewThreadHandler() returns (result: int)
      requires Valid()
      modifies `freeList, `next, `init, `brk, `free
      ensures Valid() && result != 0 && result < brk && result !in live && result !in free
      ensures old(free) != [] ==> [result] + free == old(free) && init == old(init)
      ensures old(free) == [] ==> init && |free| == (if old(init) then NUM_OF_HANDLERS else STATIC_HANDLERS) - 1
      ensures old(Handlers()) <= Handlers() + {result}
    {
      hide Chain, NoDup, Ids;
      ChainEnd(next, freeList, free);
      if freeList == 0 {
        if !init {
          MapHandlers(STATIC_HANDLERS);
          init := true;
        } else {
          MapHandlers(NUM_OF_HANDLERS);
        }
      }
      PopFree(next, freeList, free);
      assert free == [freeList] + free[1..];
      result := freeList;
      assert result in Handlers();
      freeList := next[freeList];
      free := free[1..];
    }

    /** The refill loop: n handlers, pushed one by one. */
    method MapHandlers(n: int)
      requires Valid() && freeList == 0 && free == [] && n > 0
      modifies `freeList, `next, `brk, `free
      ensures Valid() && |free| == n
    {
      hide Chain, NoDup, Ids;
      var i := 0;
      while i < n
        invariant 0 <= i <= n && Valid() && |free| == i && unchanged(`thread, `live, `firstThread, `init, `moreThanOne)
      {
        ChainEnd(next, firstThread, live);
        ChainEnd(next, freeList, free);
        assert brk !in Handlers();
        PushFree(next, freeList, free, brk, firstThread, live);
        next := next[brk := freeList];
        freeList := brk;
        free := [brk] + free;
        brk := brk + HANDLER;
        i := i + 1;
      }
    }

    /** create_first_handler: the list starts with the calling thread alone, flag down. */
    method CreateFirstHandler(self: int)
      requires Valid() && live == []
      modifies this
      ensures Valid() && Threads() == [self] && !moreThanOne
    {
      var handler := NewThreadHandler();
      PushHandler(handler, self);
    }

    /** start_routine, with the mutex held and no collection in progress. */
    method ListThread(handler: int, self: int)
      requires Valid() && live != []
      requires handler != 0 && handler < brk && handler !in live && handler !in free && self !in Threads()
      modifies `firstThread, `next, `thread, `moreThanOne, `live
      ensures Valid() && Threads() == [self] + old(Threads()) && live == [handler] + old(live) && moreThanOne
    {
      moreThanOne := true;
      PushHandler(handler, self);
    }

    method PushHandler(handler: int, self: int)
      requires Chain(next, firstThread, live) && Chain(next, freeList, free) && Elems(live) !! Elems(free)
      requires (forall a :: a in live ==> a in thread) && NoDup(Threads()) && moreThanOne == (live != [])
      requires 0 < brk && forall a :: a in Handlers() ==> a < brk
      requires handler != 0 && handler < brk && handler !in live && handler !in free && self !in Threads()
      modifies `firstThread, `next, `thread, `live
      ensures Valid() && Threads() == [self] + old(Threads()) && live == [handler] + old(live)
    {
      hide Chain, NoDup, Ids, Elems;
      PushThread(next, firstThread, live, handler, self, thread, freeList, free);
      thread := thread[handler := self];
      next := next[handler := firstThread];
      firstThread := handler;
      live := [handler] + live;
      assert Handlers() == old(Handlers()) + {handler};
    }

    /** get_thread_handler: the walk needs the thread to be listed, and ends on its handler. */
    method GetThreadHandler(self: int) returns (curr: int)
      requires Valid() && self in Threads()
      ensures curr in live && thread[curr] == self
    {
      hide Chain, NoDup;
      ghost var k := 0;
      curr := firstThread;
      Step(next, firstThread, live, thread, 0);
      while thread[curr] != self
        invariant 0 <= k < |live| && curr == live[k] && curr in thread && curr in next
        invariant next[curr] == At(live, k + 1)
        invariant Threads()[k] == thread[curr]
        invariant forall j :: 0 <= j < k ==> Threads()[j] != self
        decreases |live| - k
      {
        Step(next, firstThread, live, thread, k + 1);
        curr := next[curr];
        k := k + 1;
      }
    }

    /** remove_thread, past its safepoint: the handler is unlinked and goes back to the pool. */
    method RemoveThread(self: int)
      requires Valid() && self in Threads() && |live| > 1
      modifies `firstThread, `freeList, `next, `moreThanOne, `live, `free
      ensures Valid() && Threads() == Unlinked(old(Threads()), self)
      ensures Handlers() == old(Handlers()) && free != [] && free[1..] == old(free)
      ensures free[0] in old(live) && thread[free[0]] == self
    {
      hide Chain, NoDup;
      ghost var k := 0;
      var curr, prev := firstThread, 0;
      Step(next, firstThread, live, thread, 0);
      while thread[curr] != self
        invariant unchanged(this) && 0 <= k < |live| && curr == live[k] && curr in thread && curr in next
        invariant next[curr] == At(live, k + 1)
        invariant prev == (if k == 0 then 0 else live[k - 1]) && (prev == 0 <==> k == 0)
        invariant Threads()[k] == thread[curr]
        invariant forall j :: 0 <= j < k ==> Threads()[j] != self
        decreases |live| - k
      {
        Step(next, firstThread, live, thread, k);
        Step(next, firstThread, live, thread, k + 1);
        prev := curr;
        curr := next[curr];
        k := k + 1;
      }
      UnlinkHandler(curr, prev, self, k);
    }

    /** The rest of remove_thread: curr is the k-th handler and prev the one before it. */
    method UnlinkHandler(curr: int, prev: int, self: int, ghost k: nat)
      requires Valid() && |live| > 1 && k < |live| && curr == live[k]
      requires prev == (if k == 0 then 0 else live[k - 1]) && (prev == 0 <==> k == 0)
      requires Threads()[k] == self && forall j :: 0 <= j < k ==> Threads()[j] != self
      modifies `firstThread, `freeList, `next, `moreThanOne, `live, `free
      ensures Valid() && Threads() == Unlinked(old(Threads()), self)
      ensures Handlers() == old(Handlers()) && free == [curr] + old(free)
    {
      hide Chain, NoDup, Ids, Elems, Drop;
      Step(next, firstThread, live, thread, k);
      Cut(next, firstThread, live, k, freeList, free, thread, self);
      if prev == 0 {
        firstThread := next[curr];
      } else {
        next := next[prev := next[curr]];
      }
      live := Drop(live, k);
      if next[firstThread] == 0 {
        moreThanOne := false;
      }
      next := next[curr := freeList];
      freeList := curr;
      free := [curr] + free;
      assert Handlers() == old(Handlers());
      assert moreThanOne == (|live| > 1);
    }
  }

  lemma Step(next: Links, head: int, live: seq<int>, thread: map<int, int>, k: nat)
    requires Chain(next, head, live) && (forall a :: a in live ==> a in thread) && k < |live|
    ensures live[k] != 0 && live[k] in thread && live[k] in next && next[live[k]] == At(live, k + 1)
    ensures At(live, k) == live[k] && head == live[0] && Ids(thread, live)[k] == thread[live[k]]
  {
  }

  lemma PushThread(next: Links, head: int, live: seq<int>, a: int, self: int, thread: map<int, int>, freeList: int,
                   free: seq<int>)
    requires Chain(next, head, live) && Chain(next, freeList, free) && a != 0 && a !in live && a !in free
    ensures Chain(next[a := head], a, [a] + live) && Chain(next[a := head], freeList, free)
    ensures Elems([a] + live) == Elems(live) + {a} && a !in Elems(free)
    ensures Ids(thread[a := self], [a] + live) == [self] + Ids(thread, live)
    ensures NoDup(Ids(thread, live)) && self !in Ids(thread, live) ==> NoDup([self] + Ids(thread, live))
  {
    ChainPush(next, head, live, a);
    ChainFrame(next, next[a := head], freeList, free) by { Linked(next, freeList, free); }
    ElemsJoin([a], live);
    var t := [a] + live;
    forall i | 0 <= i < |t|
      ensures Ids(thread[a := self], t)[i] == ([self] + Ids(thread, live))[i]
    {
      if i > 0 { assert t[i] == live[i - 1] && live[i - 1] in live; }
    }
  }

  /** Unlinking the k-th handler and pushing it on the pool, and what the flag test then reads. */
  lemma Cut(next: Links, head: int, live: seq<int>, k: nat, freeList: int, free: seq<int>, thread: map<int, int>,
            self: int)
    requires Chain(next, head, live) && Chain(next, freeList, free) && Elems(live) !! Elems(free) && k < |live|
             && |live| > 1
    requires (forall a :: a in live ==> a in thread) && NoDup(Ids(thread, live))
    requires Ids(thread, live)[k] == self && forall j :: 0 <= j < k ==> Ids(thread, live)[j] != self
    ensures var c, rest, head' := live[k], Drop(live, k), if k == 0 then next[live[0]] else head;
            var next1 := if k == 0 then next else next[live[k - 1] := next[c]];
            && c in next && c != 0 && head' in next1 && (next1[head'] == 0 <==> |rest| == 1) && |rest| == |live| - 1
            && Chain(next1[c := freeList], head', rest) && Chain(next1[c := freeList], c, [c] + free)
            && Elems(rest) !! Elems([c] + free) && Elems(rest) + Elems([c] + free) == Elems(live) + Elems(free)
            && Ids(thread, rest) == Unlinked(Ids(thread, live), self) && NoDup(Ids(thread, rest))
            && forall a :: a in rest ==> a in live
  {
    var c, rest := live[k], Drop(live, k);
    CutIds(live, k, thread, self);
    ChainCut(next, head, live, k);
    DropFacts(live, k) by { assert NoDup(live); }
    OnChain(next, head, live, k);
    if k > 0 { OnChain(next, head, live, k - 1); }
    var head' := if k == 0 then next[live[0]] else head;
    var next1 := if k == 0 then next else next[live[k - 1] := next[c]];
    SecondIs(next1, head', rest);
    ElemsJoin([c], free);
    hide Chain, NoDup, Drop, Ids;
    assert c in Elems(live) && c !in Elems(free) && c !in Elems(rest);
    Linked(next1, head', rest);
    ChainFrame(next1, next1[c := freeList], head', rest);
    ChainFrame(next, next1, freeList, free) by { Linked(next, freeList, free); }
    ChainPush(next1, freeList, free, c);
    assert Elems([c]) == {c};
  }

  lemma OnChain(next: Links, head: int, live: seq<int>, k: nat)
    requires Chain(next, head, live) && k < |live|
    ensures live[k] != 0 && live[k] in next && live[k] in Elems(live)
  {
  }

  lemma SecondIs(next: Links, head: int, s: seq<int>)
    requires Chain(next, head, s) && s != []
    ensures head in next && (next[head] == 0 <==> |s| == 1)
  {
  }

  lemma CutIds(live: seq<int>, k: nat, thread: map<int, int>, self: int)
    requires k < |live| && NoDup(Ids(thread, live)) && NoDup(live)
    requires Ids(thread, live)[k] == self && forall j :: 0 <= j < k ==> Ids(thread, live)[j] != self
    ensures var ids := Ids(thread, Drop(live, k)); ids == Unlinked(Ids(thread, live), self) && NoDup(ids)
    ensures forall a :: a in Drop(live, k) ==> a in live
  {
    var ids := Ids(thread, live);
    UnlinkedAt(ids, self, k);
    DropFacts(ids, k);
    DropFacts(live, k);
    forall a | a in Drop(live, k)
      ensures a in live
    {
      assert a in Elems(Drop(live, k));
    }
    hide NoDup;
    assert Ids(thread, Drop(live, k)) == Drop(ids, k);
  }
}
