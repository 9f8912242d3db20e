/** The table of dereferenced roots: a hash table of chained handlers with a pool, swept in place. */
module DerefRoots {
  import opened Lists
  import opened Chains

  const HANDLER: int := 24              // sizeof(root_handler)
  const MMAP_COUNT: int := 4096 * 128

  /** What a handler says: a closed range of addresses, and whether it has been met on a stack. The
      mark is bit 0 of the source's field p, which is clear in the address of any object. */
  datatype Entry = Entry(p: int, end: int, marked: bool)

  predicate Contains(e: Entry, root: int) { e.p <= root <= e.end }

  function EntryAt(p: map<int, int>, end: map<int, int>, marked: set<int>, a: int): Entry {
    Entry(if a in p then p[a] else 0, if a in end then end[a] else 0, a in marked)
  }

  function Entries(p: map<int, int>, end: map<int, int>, marked: set<int>, s: seq<int>): (es: seq<Entry>)
    ensures |es| == |s| && forall i :: 0 <= i < |s| ==> es[i] == EntryAt(p, end, marked, s[i])
  {
    seq(|s|, i requires 0 <= i < |s| => EntryAt(p, end, marked, s[i]))
  }

  /** A bucket after the sweep: its marked entries in order, with their marks cleared. */
  function Survivors(es: seq<Entry>): seq<Entry> {
    if es == [] then []
    else
      var last := es[|es| - 1];
      Survivors(es[..|es| - 1]) + (if last.marked then [last.(marked := false)] else [])
  }

  /** Index of the first entry whose range holds root, or the length. */
  function FirstHolder(es: seq<Entry>, root: int): (i: nat)
    ensures i <= |es| && (i < |es| ==> Contains(es[i], root)) && forall j :: 0 <= j < i ==> !Contains(es[j], root)
  {
    if es == [] || Contains(es[0], root) then 0 else 1 + FirstHolder(es[1..], root)
  }

  // ----- buckets as chains in one memory -----

  ghost predicate Buckets(next: Links, roots: seq<int>, chains: seq<seq<int>>) {
    && |roots| == |chains|
    && (forall i :: 0 <= i < |chains| ==> Chain(next, roots[i], chains[i]))
    && (forall i, j :: 0 <= i < j < |chains| ==> Elems(chains[i]) !! Elems(chains[j]))
  }

  ghost predicate PoolApart(chains: seq<seq<int>>, free: seq<int>) {
    forall i :: 0 <= i < |chains| ==> Elems(chains[i]) !! Elems(free)
  }

  function SumLen(chains: seq<seq<int>>): nat {
    if chains == [] then 0 else SumLen(chains[..|chains| - 1]) + |chains[|chains| - 1]|
  }

  lemma {:induction false} SumLenUpdate(chains: seq<seq<int>>, i: nat, c: seq<int>)
    requires i < |chains|
    ensures SumLen(chains[i := c]) == SumLen(chains) - |chains[i]| + |c|
  {
    var n := |chains| - 1;
    if i == n {
      assert chains[i := c][..n] == chains[..n];
    } else {
      assert chains[i := c][..n] == chains[..n][i := c];
      SumLenUpdate(chains[..n], i, c);
    }
  }

  lemma {:induction false} SumLenEmpty(n: nat, chains: seq<seq<int>>)
    requires |chains| == n && forall i :: 0 <= i < n ==> chains[i] == []
    ensures SumLen(chains) == 0
  {
    if n > 0 { SumLenEmpty(n - 1, chains[..n - 1]); }
  }

  /** Links may change outside a bucket. */
  lemma BucketFrame(next: Links, next': Links, roots: seq<int>, chains: seq<seq<int>>, i: nat)
    requires Buckets(next, roots, chains) && i < |chains|
    requires forall a :: a in chains[i] ==> a in next' && next'[a] == next[a]
    ensures Chain(next', roots[i], chains[i])
  {
  }

  /** Unlinking the k-th handler of bucket i and pushing it on the pool. */
  lemma CutBucket(next: Links, roots: seq<int>, chains: seq<seq<int>>, freeList: int, free: seq<int>, i: nat, k: nat)
    requires Buckets(next, roots, chains) && Chain(next, freeList, free) && PoolApart(chains, free)
    requires i < |chains| && k < |chains[i]|
    ensures var s, c := chains[i], chains[i][k];
      && c in next && c !in free && c != 0
      && var next1 := if k == 0 then next else next[s[k - 1] := next[c]];
      && var next', roots', chains' := next1[c := freeList], if k == 0 then roots[i := next[c]]
        else roots, chains[i := Drop(s, k)];
      && Buckets(next', roots', chains') && Chain(next', c, [c] + free) && PoolApart(chains', [c] + free)
      && SumLen(chains') == SumLen(chains) - 1 && Elems([c] + free) == Elems(free) + {c}
  {
    hide Chain, NoDup, Drop;
    var s, c := chains[i], chains[i][k];
    ChainCut(next, roots[i], s, k);
    var next1 := if k == 0 then next else next[s[k - 1] := next[c]];
    var next' := next1[c := freeList];
    var roots', chains' := if k == 0 then roots[i := next[c]] else roots, chains[i := Drop(s, k)];
    assert c in Elems(s) && (k > 0 ==> s[k - 1] in Elems(s));
    ChainNoDup(next, roots[i], s);
    DropFacts(s, k);
    Linked(next, roots[i], s);
    Linked(next, freeList, free);
    Linked(next1, roots'[i], Drop(s, k));
    ChainFrame(next1, next', roots'[i], Drop(s, k));
    assert Elems(s) !! Elems(free);
    ChainFrame(next, next1, freeList, free) by { NotIn(s, free); }
    NotIn(s, free);
    ChainPush(next1, freeList, free, c);
    ElemsJoin([c], free);
    forall j | 0 <= j < |chains'| && j != i
      ensures Chain(next', roots'[j], chains'[j]) && Elems(chains[i]) !! Elems(chains[j])
    {
      assert if i < j then Elems(chains[i]) !! Elems(chains[j]) else Elems(chains[j]) !! Elems(chains[i]);
      NotIn(s, chains[j]);
      Linked(next, roots[j], chains[j]);
      BucketFrame(next, next', roots, chains, j);
    }
    SumLenUpdate(chains, i, Drop(s, k));
  }

  lemma ChainNoDup(next: Links, head: int, s: seq<int>)
    requires Chain(next, head, s)
    ensures NoDup(s)
  {
  }

  lemma NotIn(s: seq<int>, t: seq<int>)
    requires Elems(s) !! Elems(t)
    ensures forall a :: a in s ==> a !in t
    ensures forall a :: a in t ==> a !in s
  {
    assert forall a :: a in s ==> a in Elems(s);
    assert forall a :: a in t ==> a in Elems(t);
  }

  // ----- the table -----

  function Hash(root: int, n: int): int
    requires n > 0
  {
    root / 8 % n
  }

  /** Every handler of a bucket belongs there. */
  ghost predicate Hashed(p: map<int, int>, end: map<int, int>, chains: seq<seq<int>>) {
    forall i, a :: 0 <= i < |chains| && a in chains[i] ==> a in p && a in end && Hash(p[a], |chains|) == i
  }

  ghost predicate Below(chains: seq<seq<int>>, free: seq<int>, brk: int) {
    && brk > 0
    && (forall i, a :: 0 <= i < |chains| && a in chains[i] ==> a < brk)
    && (forall a :: a in free ==> a < brk)
  }

  function Table(p: map<int, int>, end: map<int, int>, marked: set<int>, chains: seq<seq<int>>): (t: seq<seq<Entry>>)
    ensures |t| == |chains| && forall i :: 0 <= i < |t| ==> t[i] == Entries(p, end, marked, chains[i])
  {
    seq(|chains|, i requires 0 <= i < |chains| => Entries(p, end, marked, chains[i]))
  }

  /** What mark_dereferenced_root does to the table: the first entry of the word's bucket that holds
      the word is marked; `newly` says that it was not marked before, and `hit` is its address. */
  ghost predicate WordMarked(t: seq<seq<Entry>>, t': seq<seq<Entry>>, w: int, newly: bool, hit: int)
    requires |t| >= 1
    ensures WordMarked(t, t', w, newly, hit) ==> |t'| == |t|
  {
    if w == 0 || w % 2 != 0 then t' == t && !newly
    else
      var b := Hash(w, |t|);
      var es := t[b];
      var k := FirstHolder(es, w);
      if k == |es| then t' == t && !newly
      else t' == t[b := es[k := es[k].(marked := true)]] && newly == !es[k].marked && hit == es[k].p
  }

  /** Changing the fields of handlers outside a bucket does not change what the bucket says. */
  lemma EntriesFrame(p: map<int, int>, end: map<int, int>, marked: set<int>, p': map<int, int>, end': map<int, int>,
                     marked': set<int>, s: seq<int>)
    requires forall a :: a in s ==> EntryAt(p', end', marked', a) == EntryAt(p, end, marked, a)
    ensures Entries(p', end', marked', s) == Entries(p, end, marked, s)
  {
  }

  /** The static state of deref_roots.cpp. Handlers are addresses; the maps and the set are the
      contents of their fields. */
  class DerefTable {
    const roots: array<int>
    var next: Links
    var p: map<int, int>
    var end: map<int, int>
    var marked: set<int>
    var freeList: int
    var brk: int
    var count: int
    var totalCount: int
    var expandCount: nat
    var expandFactor: nat
    ghost var chains: seq<seq<int>>
    ghost var free: seq<int>

    constructor (n: nat)
      requires n >= 1
      ensures Valid() && roots.Length == n && fresh(roots) && forall i :: 0 <= i < n ==> chains[i] == []
      ensures marked == {} && p == map[] && end == map[] && next == map[]
      ensures count == 0 && totalCount == 0 && expandCount == 0 && expandFactor == 8
    {
      roots := new int[n](_ => 0);
      next, p, end, marked := map[], map[], map[], {};
      freeList, brk, count, totalCount := 0, HANDLER, 0, 0;
      expandCount, expandFactor := 0, 8;
      chains, free := seq(n, _ => []), [];
      new;
      SumLenEmpty(n, chains);
    }

    /** The buckets and the pool are disjoint lists of handlers, each handler in its own bucket;
        `count` is the number of entries, and with the pool they make up all that was mapped. */
    ghost predicate Valid()
      reads this, roots
    {
      && roots.Length >= 1 && |chains| == roots.Length && expandFactor in {1, 2, 4, 8} && expandCount < expandFactor
      && Buckets(next, roots[..], chains) && Chain(next, freeList, free) && PoolApart(chains, free)
      && Hashed(p, end, chains) && Below(chains, free, brk)
      && count == SumLen(chains) && totalCount == count + |free|
    }

    ghost function Contents(): seq<seq<Entry>>
      reads this
    {
      Table(p, end, marked, chains)
    }

    /** register_dereferenced_root. A true result asks for gc(false): the expandFactor-th time that the
        pool has been used up, which is the eighth time at first, then the fourth, the second, and from
        then on every time. */
    method Register(root: int, size: nat) returns (needGc: bool)
      requires Valid()
      modifies this, roots
      ensures Valid()
      ensures root == 0 ==> unchanged(this) && !needGc
      ensures root != 0 ==> old(|Contents()|) >= 1 && var b := Hash(root, old(|Contents()|));
                Contents() == old(Contents())[b := [Entry(root, root + size, false)] + old(Contents())[b]]
      ensures root != 0 ==> count == old(count) + 1
      ensures root != 0 ==> totalCount == old(totalCount) + (if old(count) == old(totalCount) then MMAP_COUNT else 0)
      ensures root != 0 ==> (needGc <==> count == totalCount && old(expandCount) + 1 == old(expandFactor))
      ensures expandCount ==
                if needGc then 0 else old(expandCount) + (if root != 0 && count == totalCount then 1 else 0)
      ensures expandFactor == if needGc && old(expandFactor) > 1 then old(expandFactor) / 2 else old(expandFactor)
    {
      hide Buckets, Chain, PoolApart, Hashed, Below, SumLen, Table;
      needGc := false;
      if root == 0 {
        return;
      }
      ChainEnd(next, freeList, free);
      if freeList == 0 {
        MapHandlers();
      }
      AddEntry(root, size);
      needGc := AskForCleaning();
    }

    /** The end of register_dereferenced_root. */
    method AskForCleaning() returns (needGc: bool)
      requires Valid()
      modifies `expandCount, `expandFactor
      ensures Valid() && (needGc <==> count == totalCount && old(expandCount) + 1 == old(expandFactor))
      ensures expandCount == if needGc then 0 else old(expandCount) + (if count == totalCount then 1 else 0)
      ensures expandFactor == if needGc && old(expandFactor) > 1 then old(expandFactor) / 2 else old(expandFactor)
    {
      hide Buckets, Chain, PoolApart, Hashed, Below, SumLen, Table;
      needGc := false;
      if count == totalCount {
        expandCount := expandCount + 1;
        needGc := expandCount % expandFactor == 0;
      }
      if needGc {
        expandCount := 0;
        if expandFactor != 1 {
          expandFactor := expandFactor / 2;
        }
      }
    }

    method MapHandlers()
      requires Valid() && freeList == 0 && free == []
      modifies `freeList, `next, `brk, `free, `totalCount
      ensures Valid() && |free| == MMAP_COUNT && totalCount == old(totalCount) + MMAP_COUNT
    {
      hide Buckets, Chain, PoolApart, Hashed, Below, SumLen;
      var i := 0;
      while i < MMAP_COUNT
        invariant 0 <= i <= MMAP_COUNT && |free| == old(|free|) + i && totalCount == old(totalCount)
        invariant Buckets(next, roots[..], chains) && Chain(next, freeList, free) && PoolApart(chains, free)
        invariant Below(chains, free, brk)
      {
        var curr := brk;
        MapHandler(next, roots[..], chains, freeList, free, brk);
        next := next[curr := freeList];
        freeList := curr;
        free := [curr] + free;
        brk := brk + HANDLER;
        i := i + 1;
      }
      totalCount := totalCount + MMAP_COUNT;
    }

    /** The entry's fields are set on the handler that has gone to the front of its bucket. */
    method AddEntry(root: int, size: nat)
      requires Valid() && free != []
      modifies `freeList, `next, `p, `end, `marked, `count, `chains, `free, roots
      ensures Valid() && |chains| == old(|chains|) && count == old(count) + 1
      ensures var b := Hash(root, |chains|);
              Contents() == old(Contents())[b := [Entry(root, root + size, false)] + old(Contents())[b]]
    {
      hide Buckets, Chain, PoolApart, Hashed, Below, SumLen, Table, Elems, NoDup;
      TakenEntry(p, end, marked, chains, free, Hash(root, roots.Length), root, root + size, brk);
      var data := LinkFirst(Hash(root, roots.Length));
      p := p[data := root];
      marked := marked - {data};
      end := end[data := root + size];
    }

    /** A handler goes from the pool to the front of bucket b. */
    method LinkFirst(b: nat) returns (data: int)
      requires Valid() && free != [] && b < roots.Length
      modifies `freeList, `next, `count, `chains, `free, roots
      ensures Buckets(next, roots[..], chains) && Chain(next, freeList, free) && PoolApart(chains, free)
      ensures data == old(free)[0] && chains == old(chains)[b := [data] + old(chains)[b]] && free == old(free)[1..]
      ensures count == SumLen(chains) && totalCount == count + |free|
    {
      hide Buckets, Chain, PoolApart, Hashed, Below, SumLen, Elems, NoDup;
      TakeHandler(next, roots[..], chains, freeList, free, b);
      ghost var links := roots[..];
      data := freeList;
      freeList := next[data];
      next := next[data := roots[b]];
      roots[b] := data;
      assert roots[..] == links[b := data];
      count := count + 1;
      chains, free := chains[b := [data] + chains[b]], free[1..];
    }

    /** mark_dereferenced_root, its traversal apart: if the entry was not marked before, the source
        goes on to pin and traverse the object at `hit`. */
    method MarkRoot(root: int) returns (newly: bool, hit: int)
      requires Valid()
      modifies `marked
      ensures Valid() && old(|Contents()|) >= 1
      ensures WordMarked(old(Contents()), Contents(), root, newly, hit)
    {
      hide Buckets, Chain, PoolApart, Hashed, Below, SumLen, Table, FirstHolder, Elems, NoDup;
      newly, hit := false, 0;
      if root == 0 || root % 2 != 0 {
        return;
      }
      var b := Hash(root, roots.Length);
      ghost var s, es, k := chains[b], Contents()[b], 0;
      assert es == Entries(p, end, marked, s);
      BucketWalk(next, roots[..], chains, p, end, marked, b, 0);
      var curr := roots[b];
      while curr != 0
        invariant 0 <= k <= |s| && curr == At(s, k) && (curr == 0 <==> k == |s|) && unchanged(`marked)
        invariant forall j :: 0 <= j < k ==> !Contains(es[j], root)
        decreases |s| - k
      {
        BucketWalk(next, roots[..], chains, p, end, marked, b, k);
        if p[curr] <= root <= end[curr] {
          HolderIs(es, root, k);
          MarkedEntry(next, roots[..], chains, p, end, marked, b, k);
          if curr !in marked {
            marked := marked + {curr};
            newly := true;
          }
          hit := p[curr];
          return;
        }
        curr := next[curr];
        k := k + 1;
      }
      HolderIs(es, root, k);
    }

    /** sweep_dereferenced_roots, one bucket. */
    method SweepBucket(b: nat)
      requires Valid() && b < roots.Length
      modifies `next, `marked, `freeList, `count, `chains, `free, roots
      ensures Valid() && |chains| == old(|chains|)
      ensures Contents() == old(Contents())[b := Survivors(old(Contents())[b])]
    {
      hide Buckets, Chain, PoolApart, Hashed, Below, SumLen, Table, Survivors, Elems, NoDup, SweepInv, Entries, Drop;
      ghost var s, es, i, k := chains[b], Contents()[b], 0, 0;
      var curr, prev := roots[b], 0;
      BucketWalk(next, roots[..], chains, p, end, marked, b, 0);
      SweepStart(next, roots[..], chains, p, end, marked, b);
      while curr != 0
        invariant Valid() && |chains| == old(|chains|) && b < |chains|
        invariant 0 <= i <= |s| && 0 <= k <= |chains[b]| && (curr == 0 <==> k == |chains[b]|)
        invariant curr == At(chains[b], k) && prev == At(chains[b], k - 1)
        invariant SweepInv(p, end, marked, old(Contents()), chains, b, s, es, i, k)
        decreases |s| - i
      {
        BucketWalk(next, roots[..], chains, p, end, marked, b, k);
        SweepStep(next, roots[..], p, end, marked, old(Contents()), chains, b, s, es, i, k);
        if curr !in marked {
          var tmp := next[curr];
          CutHandler(b, prev, curr, k);
          curr := tmp;
        } else {
          marked := marked - {curr};
          prev := curr;
          curr := next[curr];
          k := k + 1;
        }
        i := i + 1;
        BucketWalk(next, roots[..], chains, p, end, marked, b, k);
      }
      SweepEnd(p, end, marked, old(Contents()), chains, b, s, es, i, k);
    }

    /** The k-th handler of bucket b, after prev, goes to the pool. */
    method CutHandler(b: nat, prev: int, curr: int, ghost k: nat)
      requires Valid() && b < roots.Length && k < |chains[b]| && curr == chains[b][k] && prev == At(chains[b], k - 1)
      modifies `next, `freeList, `count, `chains, `free, roots
      ensures Valid() && chains == old(chains)[b := Drop(old(chains)[b], k)]
    {
      hide Buckets, Chain, PoolApart, Hashed, Below, SumLen, Elems, NoDup, Drop;
      ghost var links := roots[..];
      CutBucket(next, roots[..], chains, freeList, free, b, k);
      CutFields(p, end, chains, free, b, k, brk);
      PrevIs(next, roots[..], chains, b, k);
      if prev == 0 {
        roots[b] := next[curr];
      } else {
        next := next[prev := next[curr]];
      }
      assert roots[..] == if prev == 0 then links[b := old(next)[curr]] else links;
      next := next[curr := freeList];
      freeList := curr;
      count := count - 1;
      chains, free := chains[b := Drop(chains[b], k)], [curr] + free;
    }

    /** sweep_dereferenced_roots */
    method Sweep()
      requires Valid()
      modifies `next, `marked, `freeList, `count, `chains, `free, roots
      ensures Valid() && |Contents()| == old(|Contents()|)
      ensures forall i :: 0 <= i < |Contents()| ==> Contents()[i] == Survivors(old(Contents())[i])
    {
      hide Buckets, Chain, PoolApart, Hashed, Below, SumLen, Survivors, Elems, NoDup;
      var i := 0;
      while i < roots.Length
        invariant 0 <= i <= roots.Length && Valid() && |chains| == old(|chains|)
        invariant forall j :: 0 <= j < |chains| ==> Contents()[j] == if j < i then Survivors(old(Contents())[j])
                  else old(Contents())[j]
      {
        SweepBucket(i);
        i := i + 1;
      }
    }
  }

  lemma MapHandler(next: Links, roots: seq<int>, chains: seq<seq<int>>, freeList: int, free: seq<int>, brk: int)
    requires Buckets(next, roots, chains) && Chain(next, freeList, free) && PoolApart(chains, free)
             && Below(chains, free, brk)
    ensures Buckets(next[brk := freeList], roots, chains) && Chain(next[brk := freeList], brk, [brk] + free)
    ensures PoolApart(chains, [brk] + free) && Below(chains, [brk] + free, brk + HANDLER)
  {
    hide Chain, NoDup;
    ChainPush(next, freeList, free, brk);
    ElemsJoin([brk], free);
    forall i | 0 <= i < |chains|
      ensures Chain(next[brk := freeList], roots[i], chains[i]) && Elems(chains[i]) !! Elems([brk] + free)
    {
      Linked(next, roots[i], chains[i]);
      BucketFrame(next, next[brk := freeList], roots, chains, i);
      assert Elems(chains[i]) !! Elems(free);
      assert brk !in chains[i];
    }
  }

  lemma TakeHandler(next: Links, roots: seq<int>, chains: seq<seq<int>>, freeList: int, free: seq<int>, b: nat)
    requires Buckets(next, roots, chains) && Chain(next, freeList, free) && PoolApart(chains, free) && free != []
             && b < |chains|
    ensures freeList == free[0] && freeList in next && freeList != 0
    ensures var next', chains' := next[freeList := roots[b]], chains[b := [freeList] + chains[b]];
      && Buckets(next', roots[b := freeList], chains') && Chain(next', next[freeList], free[1..])
        && PoolApart(chains', free[1..])
      && SumLen(chains') == SumLen(chains) + 1
  {
    hide Chain, NoDup;
    var a, rest := freeList, free[1..];
    ChainTail(next, freeList, free);
    assert free == [a] + rest;
    ElemsJoin([a], rest);
    assert a in Elems(free);
    var next', chains' := next[a := roots[b]], chains[b := [a] + chains[b]];
    Linked(next, next[a], rest);
    ChainFrame(next, next', next[a], rest);
    forall j | 0 <= j < |chains|
      ensures a !in chains[j] && Elems(chains[j]) !! Elems(rest)
    {
      assert Elems(chains[j]) !! Elems(free);
      NotIn(chains[j], free);
    }
    ChainPush(next, roots[b], chains[b], a);
    ElemsJoin([a], chains[b]);
    assert a !in Elems(rest);
    forall j | 0 <= j < |chains| && j != b
      ensures Chain(next', roots[j], chains[j])
    {
      Linked(next, roots[j], chains[j]);
      BucketFrame(next, next', roots, chains, j);
    }
    SumLenUpdate(chains, b, [a] + chains[b]);
  }

  lemma TakenEntry(p: map<int, int>, end: map<int, int>, marked: set<int>, chains: seq<seq<int>>, free: seq<int>,
                   b: nat, root: int, last: int, brk: int)
    requires Hashed(p, end, chains) && Below(chains, free, brk) && free != [] && PoolApart(chains, free)
    requires b < |chains| && b == Hash(root, |chains|)
    ensures var a := free[0];
      var p', end', marked', chains' := p[a := root], end[a := last], marked - {a}, chains[b := [a] + chains[b]];
      && Hashed(p', end', chains') && Below(chains', free[1..], brk)
      && Table(p', end', marked', chains') == Table(p, end, marked, chains)[b :=
        [Entry(root, last, false)] + Table(p, end, marked, chains)[b]]
  {
    var a := free[0];
    var p', end', marked', chains' := p[a := root], end[a := last], marked - {a}, chains[b := [a] + chains[b]];
    assert a in Elems(free) && forall x :: x in free[1..] ==> x in free;
    forall j | 0 <= j < |chains|
      ensures a !in chains[j] && Entries(p', end', marked', chains[j]) == Entries(p, end, marked, chains[j])
    {
      assert Elems(chains[j]) !! Elems(free);
      NotIn(chains[j], free);
      EntriesFrame(p, end, marked, p', end', marked', chains[j]);
    }
    assert Entries(p', end', marked', [a] + chains[b])
           == [Entry(root, last, false)] + Entries(p', end', marked', chains[b]);
    var t, t' := Table(p, end, marked, chains), Table(p', end', marked', chains');
    assert t' == t[b := [Entry(root, last, false)] + t[b]];
  }

  // ----- walking a bucket -----

  lemma BucketWalk(next: Links, roots: seq<int>, chains: seq<seq<int>>, p: map<int, int>, end: map<int, int>,
                   marked: set<int>, b: nat, k: nat)
    requires Buckets(next, roots, chains) && Hashed(p, end, chains) && b < |chains| && k <= |chains[b]|
    ensures At(chains[b], 0) == roots[b] && (At(chains[b], k) == 0 <==> k == |chains[b]|)
    ensures k < |chains[b]| ==> var a := chains[b][k];
      && At(chains[b], k) == a && a in next && next[a] == At(chains[b], k + 1) && a in p && a in end && a != 0
      && (At(chains[b], k + 1) == 0 <==> k + 1 == |chains[b]|)
      && Entries(p, end, marked, chains[b])[k] == Entry(p[a], end[a], a in marked)
  {
    assert Chain(next, roots[b], chains[b]);
    assert k < |chains[b]| ==> chains[b][k] in chains[b];
  }

  lemma HolderIs(es: seq<Entry>, root: int, k: nat)
    requires k <= |es| && (forall j :: 0 <= j < k ==> !Contains(es[j], root)) && (k < |es| ==> Contains(es[k], root))
    ensures FirstHolder(es, root) == k
  {
  }

  /** Marking one handler marks one entry of the table. */
  lemma MarkedInBucket(p: map<int, int>, end: map<int, int>, marked: set<int>, s: seq<int>, k: nat)
    requires k < |s| && forall j :: 0 <= j < |s| && j != k ==> s[j] != s[k]
    ensures var es := Entries(p, end, marked, s); Entries(p, end, marked + {s[k]}, s) == es[k := es[k].(marked := true)]
  {
  }

  lemma MarkedEntry(next: Links, roots: seq<int>, chains: seq<seq<int>>, p: map<int, int>, end: map<int, int>,
                    marked: set<int>, b: nat, k: nat)
    requires Buckets(next, roots, chains) && b < |chains| && k < |chains[b]|
    ensures var a, t := chains[b][k], Table(p, end, marked, chains);
      && Table(p, end, marked + {a}, chains) == t[b := t[b][k := t[b][k].(marked := true)]]
      && (a in marked ==> t == t[b := t[b][k := t[b][k].(marked := true)]])
  {
    var a, t, t' := chains[b][k], Table(p, end, marked, chains), Table(p, end, marked + {chains[b][k]}, chains);
    OnlyInBucket(next, roots, chains, b, k);
    forall j | 0 <= j < |chains| && j != b
      ensures t'[j] == t[j]
    {
      EntriesFrame(p, end, marked, p, end, marked + {a}, chains[j]);
    }
    MarkedInBucket(p, end, marked, chains[b], k);
    hide Buckets, Entries;
    assert t' == t[b := t[b][k := t[b][k].(marked := true)]];
    if a in marked { assert marked + {a} == marked; }
  }

  /** A handler is in one bucket, and there once. */
  lemma OnlyInBucket(next: Links, roots: seq<int>, chains: seq<seq<int>>, b: nat, k: nat)
    requires Buckets(next, roots, chains) && b < |chains| && k < |chains[b]|
    ensures forall j :: 0 <= j < |chains| && j != b ==> chains[b][k] !in chains[j]
    ensures forall l :: 0 <= l < |chains[b]| && l != k ==> chains[b][l] != chains[b][k]
  {
    assert Chain(next, roots[b], chains[b]);
    OnlyAt(chains[b], k);
    forall j | 0 <= j < |chains| && j != b
      ensures chains[b][k] !in chains[j]
    {
      assert if b < j then Elems(chains[b]) !! Elems(chains[j]) else Elems(chains[j]) !! Elems(chains[b]);
      NotIn(chains[b], chains[j]);
    }
  }

  lemma PrevIs(next: Links, roots: seq<int>, chains: seq<seq<int>>, b: nat, k: nat)
    requires Buckets(next, roots, chains) && b < |chains| && k < |chains[b]|
    ensures At(chains[b], k - 1) == 0 <==> k == 0
    ensures k > 0 ==> At(chains[b], k - 1) == chains[b][k - 1]
  {
  }

  lemma CutFields(p: map<int, int>, end: map<int, int>, chains: seq<seq<int>>, free: seq<int>, b: nat, k: nat, brk: int)
    requires Hashed(p, end, chains) && Below(chains, free, brk) && b < |chains| && k < |chains[b]|
    ensures var chains' := chains[b := Drop(chains[b], k)];
            Hashed(p, end, chains')
            && Below(chains', [chains[b][k]] + free, brk)
  {
    assert chains[b][k] in chains[b];
    assert forall a :: a in Drop(chains[b], k) ==> a in chains[b];
  }

  // ----- the sweep of a bucket -----

  /** After i handlers of the old chain s, of which k are left: those say what the marked ones said,
      the rest of the chain is untouched, and so are the other buckets. */
  ghost predicate SweepInv(p: map<int, int>, end: map<int, int>, marked: set<int>, old_: seq<seq<Entry>>,
                           chains: seq<seq<int>>, b: nat, s: seq<int>, es: seq<Entry>, i: nat, k: nat) {
    && |old_| == |chains| && b < |chains| && es == old_[b] && |es| == |s| && i <= |s| && k <= |chains[b]|
    && chains[b][k..] == s[i..]
    && Entries(p, end, marked, chains[b][..k]) == Survivors(es[..i])
    && (forall j :: i <= j < |s| ==> EntryAt(p, end, marked, s[j]) == es[j])
    && (forall c :: 0 <= c < |chains| && c != b ==> Entries(p, end, marked, chains[c]) == old_[c])
  }

  lemma SweepStart(next: Links, roots: seq<int>, chains: seq<seq<int>>, p: map<int, int>, end: map<int, int>,
                   marked: set<int>, b: nat)
    requires b < |chains|
    ensures var t := Table(p, end, marked, chains); SweepInv(p, end, marked, t, chains, b, chains[b], t[b], 0, 0)
  {
  }

  lemma OneMoreSurvivor(es: seq<Entry>, i: nat)
    requires i < |es|
    ensures Survivors(es[..i + 1]) == Survivors(es[..i]) + (if es[i].marked then [es[i].(marked := false)] else [])
  {
    assert es[..i + 1][..i] == es[..i];
  }

  lemma SweepStep(next: Links, roots: seq<int>, p: map<int, int>, end: map<int, int>, marked: set<int>,
                  old_: seq<seq<Entry>>, chains: seq<seq<int>>, b: nat, s: seq<int>, es: seq<Entry>, i: nat, k: nat)
    requires Buckets(next, roots, chains) && SweepInv(p, end, marked, old_, chains, b, s, es, i, k) && k < |chains[b]|
    ensures i < |s| && chains[b][k] == s[i]
    ensures s[i] !in marked ==>
      var chains' := chains[b := Drop(chains[b], k)];
          SweepInv(p, end, marked, old_, chains', b, s, es, i + 1, k)
          && At(chains'[b], k - 1) == At(chains[b], k - 1) && At(chains'[b], k) == At(chains[b], k + 1)
    ensures s[i] in marked ==> SweepInv(p, end, marked - {s[i]}, old_, chains, b, s, es, i + 1, k + 1)
  {
    var c, a := chains[b], s[i];
    assert c[k..][0] == c[k] && s[i..][0] == s[i] && c[k + 1..] == c[k..][1..] && s[i + 1..] == s[i..][1..];
    OnlyInBucket(next, roots, chains, b, k);
    if a !in marked {
      DropStep(p, end, marked, old_, chains, b, s, es, i, k);
    } else {
      KeepStep(p, end, marked, old_, chains, b, s, es, i, k);
    }
  }

  lemma DropStep(p: map<int, int>, end: map<int, int>, marked: set<int>, old_: seq<seq<Entry>>, chains: seq<seq<int>>,
                 b: nat, s: seq<int>, es: seq<Entry>, i: nat, k: nat)
    requires SweepInv(p, end, marked, old_, chains, b, s, es, i, k) && k < |chains[b]| && i < |s|
    requires chains[b][k] == s[i] && s[i] !in marked
    requires chains[b][k + 1..] == s[i + 1..]
    ensures var chains' := chains[b := Drop(chains[b], k)];
            && SweepInv(p, end, marked, old_, chains', b, s, es, i + 1, k)
            && At(chains'[b], k - 1) == At(chains[b], k - 1) && At(chains'[b], k) == At(chains[b], k + 1)
  {
    hide Survivors;
    OneMoreSurvivor(es, i);
    var c, c' := chains[b], Drop(chains[b], k);
    assert c'[..k] == c[..k] && c'[k..] == c[k + 1..];
    assert EntryAt(p, end, marked, s[i]) == es[i];
  }

  lemma KeepStep(p: map<int, int>, end: map<int, int>, marked: set<int>, old_: seq<seq<Entry>>, chains: seq<seq<int>>,
                 b: nat, s: seq<int>, es: seq<Entry>, i: nat, k: nat)
    requires SweepInv(p, end, marked, old_, chains, b, s, es, i, k) && k < |chains[b]| && i < |s|
    requires chains[b][k] == s[i] && s[i] in marked
    requires chains[b][k + 1..] == s[i + 1..]
    requires forall j :: 0 <= j < |chains| && j != b ==> s[i] !in chains[j]
    requires forall l :: 0 <= l < |chains[b]| && l != k ==> chains[b][l] != s[i]
    ensures SweepInv(p, end, marked - {s[i]}, old_, chains, b, s, es, i + 1, k + 1)
  {
    hide Survivors;
    OneMoreSurvivor(es, i);
    var c, a, marked' := chains[b], s[i], marked - {s[i]};
    assert EntryAt(p, end, marked, a) == es[i];
    EntriesFrame(p, end, marked, p, end, marked', c[..k]);
    assert c[..k + 1] == c[..k] + [a];
    assert Entries(p, end, marked', c[..k + 1]) == Entries(p, end, marked', c[..k]) + [EntryAt(p, end, marked', a)];
    forall j | i + 1 <= j < |s|
      ensures EntryAt(p, end, marked', s[j]) == es[j]
    {
      assert s[j] == s[i + 1..][j - i - 1] && c[k + 1..][j - i - 1] == c[k + j - i];
    }
    forall d | 0 <= d < |chains| && d != b
      ensures Entries(p, end, marked', chains[d]) == old_[d]
    {
      EntriesFrame(p, end, marked, p, end, marked', chains[d]);
    }
  }

  lemma SweepEnd(p: map<int, int>, end: map<int, int>, marked: set<int>, old_: seq<seq<Entry>>, chains: seq<seq<int>>,
                 b: nat, s: seq<int>, es: seq<Entry>, i: nat, k: nat)
    requires SweepInv(p, end, marked, old_, chains, b, s, es, i, k) && k == |chains[b]|
    ensures Table(p, end, marked, chains) == old_[b := Survivors(old_[b])]
  {
    assert |s[i..]| == 0 && i == |s|;
    assert chains[b][..k] == chains[b] && es[..i] == es;
    assert Table(p, end, marked, chains) == old_[b := Survivors(es)];
  }
}
