/** The third part of sweep: every field of every surviving object on a page, and every root, is
    redirected through the forwarding pointers. */
module FixUp {
  import opened Lists
  import opened Objects
  import opened Pages
  import opened Heaps

  /** A gc_ptr word after the move: the new address of its object under the old tag bits. */
  function Forward(moved: map<int, int>, w: Word): Word {
    if !IsNullWord(w) && TargetOf(w) in moved then WordTo(moved[TargetOf(w)], w.flags) else w
  }

  /** An object's payload with exactly its gc_ptr fields redirected. */
  function Rewrite(shells: Shells, moved: map<int, int>, d: Payload): (r: Payload)
    ensures |r| == |d|
  {
    if MetaOk(shells, d) then
      var fields := Fields(shells, d);
      seq(|d|, k requires 0 <= k < |d| => if k in fields then Forward(moved, d[k]) else d[k])
    else d
  }

  /** Among the blocks of u, a mark means moved, and the first word of a moved block is the address
      of its copy's data. */
  ghost predicate Forwarding(mem: Memory, marked: set<int>, moved: map<int, int>, u: set<int>) {
    forall t :: t in u ==>
      && (t in marked <==> t in moved)
      && (t in moved ==>
        t in mem && mem[t] != [] && mem[t][0] == Word(moved[t] + BLOCK, 0) && moved[t] in u
        && moved[t] !in moved)
  }

  /** fix_ptr with move_ptr, for a pointer that is not composite. */
  method FixPtr(h: Heap, w: Word, ghost moved: map<int, int>, ghost u: set<int>) returns (w': Word)
    requires Forwarding(h.mem, h.marked, moved, u) && RootInto(w, u)
    ensures w' == Forward(moved, w) && Follows(moved, w, w')
  {
    w' := w;
    if !IsNullWord(w) {
      var target := TargetOf(w);
      if target in h.marked {
        w' := Word(h.mem[target][0].addr + META, w.flags);
      }
    }
  }

  /** The fields of an object point into u. */
  ghost predicate FieldsInto(shells: Shells, d: Payload, u: set<int>) {
    MetaOk(shells, d) && forall k :: k in Fields(shells, d) && 0 <= k < |d| ==> RootInto(d[k], u)
  }

  /** What remains to be done after the fields in `done` have been redirected. */
  ghost predicate PartRewritten(moved: map<int, int>, d0: Payload, d: Payload, done: set<int>) {
    |d| == |d0| && forall k :: 0 <= k < |d| ==> d[k] == if k in done then Forward(moved, d0[k]) else d0[k]
  }

  /** Redirecting one more field, or one that has been redirected before. */
  lemma RewriteOne(moved: map<int, int>, d0: Payload, d: Payload, done: set<int>, k: int)
    requires PartRewritten(moved, d0, d, done) && 0 <= k < |d|
    requires forall t :: t in moved ==> moved[t] !in moved
    ensures PartRewritten(moved, d0, d[k := Forward(moved, d[k])], done + {k})
  {
  }

  /** The two inner loops of the third pass on the object block b. */
  method FixObject(h: Heap, b: int, ghost moved: map<int, int>, ghost u: set<int>)
    requires b in h.mem && FieldsInto(h.shells, h.mem[b], u) && b !in moved
    requires Forwarding(h.mem, h.marked, moved, u) && moved.Keys <= u
    modifies h`mem
    ensures h.mem == old(h.mem)[b := Rewrite(h.shells, moved, old(h.mem)[b])]
  {
    hide Forward, FieldsInto, PartRewritten, RowFields;
    ghost var mem0, d0 := h.mem, h.mem[b];
    ObjectFields(h.shells, d0, u);
    var sh := ShellOf(h.shells, h.mem[b]);
    var count := Value(h.mem[b][2]);
    ghost var done: set<int> := {};
    var base, i := 0, 0;
    assert PartRewritten(moved, d0, d0, {}) by { StartRewrite(moved, d0); }
    while i < count
      invariant 0 <= i <= count && base >= 0
      invariant b in h.mem && h.mem == mem0[b := h.mem[b]] && PartRewritten(moved, d0, h.mem[b], done)
      invariant done + FieldsFrom(sh, base, count - i) == Fields(h.shells, d0)
    {
      FixRow(h, b, sh, base, moved, u, mem0, done);
      done := done + RowFields(sh, base);
      base := base + sh.size;
      i := i + 1;
    }
    EndRewrite(h.shells, moved, d0, h.mem[b]);
  }

  lemma ObjectFields(shells: Shells, d: Payload, u: set<int>)
    requires FieldsInto(shells, d, u)
    ensures MetaOk(shells, d) && Fields(shells, d) == FieldsFrom(shells[d[1]], 0, Value(d[2])) && shells[d[1]].size >= 0
  {
  }

  lemma StartRewrite(moved: map<int, int>, d: Payload)
    ensures PartRewritten(moved, d, d, {})
  {
  }

  lemma EndRewrite(shells: Shells, moved: map<int, int>, d0: Payload, d: Payload)
    requires MetaOk(shells, d0) && PartRewritten(moved, d0, d, Fields(shells, d0))
    ensures d == Rewrite(shells, moved, d0)
  {
  }

  /** The innermost loop: the fields of the one object at byte `base`. */
  method FixRow(h: Heap, b: int, sh: Shell, base: int, ghost moved: map<int, int>, ghost u: set<int>,
                ghost mem0: Memory, ghost done: set<int>)
    requires b in mem0 && FieldsInto(h.shells, mem0[b], u) && b !in moved
    requires Forwarding(mem0, h.marked, moved, u) && moved.Keys <= u
    requires b in h.mem && h.mem == mem0[b := h.mem[b]] && PartRewritten(moved, mem0[b], h.mem[b], done)
    requires sh == h.shells[mem0[b][1]] && RowFields(sh, base) <= Fields(h.shells, mem0[b])
    modifies h`mem
    ensures b in h.mem && h.mem == mem0[b := h.mem[b]]
            && PartRewritten(moved, mem0[b], h.mem[b], done + RowFields(sh, base))
  {
    hide Forward, FieldsInto, PartRewritten, Forwarding, RootInto;
    ghost var acc := done;
    var j := 0;
    assert OffsetFields(sh.offsets[..0], base) == {};
    assert done + {} == done;
    while j < |sh.offsets|
      invariant 0 <= j <= |sh.offsets| && acc == done + OffsetFields(sh.offsets[..j], base)
      invariant b in h.mem && h.mem == mem0[b := h.mem[b]] && PartRewritten(moved, mem0[b], h.mem[b], acc)
    {
      var k := FieldAt(base + sh.offsets[j]);
      RowStep(sh.offsets, base, j);
      FieldWord(h.shells, mem0, h.mem, h.marked, moved, u, b, acc, k);
      var w := FixPtr(h, h.mem[b][k], moved, u);
      RewriteOne(moved, mem0[b], h.mem[b], acc, k);
      h.mem := h.mem[b := h.mem[b][k := w]];
      acc := acc + {k};
      j := j + 1;
    }
    assert sh.offsets[..j] == sh.offsets;
  }

  /** The word in field k of a partly redirected object is one that fix_ptr can handle. */
  lemma FieldWord(shells: Shells, mem0: Memory, mem: Memory, marked: set<int>, moved: map<int, int>, u: set<int>,
                  b: int, done: set<int>, k: int)
    requires b in mem0 && FieldsInto(shells, mem0[b], u) && k in Fields(shells, mem0[b]) && b !in moved
    requires Forwarding(mem0, marked, moved, u) && b in mem && mem == mem0[b := mem[b]] && moved.Keys <= u
    requires PartRewritten(moved, mem0[b], mem[b], done)
    ensures 0 <= k < |mem[b]| && forall t :: t in moved ==> moved[t] !in moved
    ensures Forwarding(mem, marked, moved, u) && RootInto(mem[b][k], u)
  {
    FieldsInPayload(shells, mem0[b]);
    var w := mem0[b][k];
    assert RootInto(w, u);
    if !IsNullWord(w) && TargetOf(w) in moved {
      assert TargetOf(w) in u && moved[TargetOf(w)] in u;
      assert TargetOf(Forward(moved, w)) == moved[TargetOf(w)];
    }
  }

  /** Memory with exactly the blocks in `done` redirected. */
  ghost predicate Fixed(shells: Shells, moved: map<int, int>, mem0: Memory, mem: Memory, done: set<int>) {
    && mem.Keys == mem0.Keys
    && forall b :: b in mem0 ==> mem[b] == if b in done then Rewrite(shells, moved, mem0[b]) else mem0[b]
  }

  /** The blocks of u in `live` are objects whose fields point into u. */
  ghost predicate ObjectsInto(shells: Shells, mem: Memory, live: set<int>, u: set<int>) {
    forall b :: b in live ==> b in mem && FieldsInto(shells, mem[b], u)
  }

  lemma ForwardingFrame(shells: Shells, mem0: Memory, mem: Memory, marked: set<int>, moved: map<int, int>, u: set<int>,
                        done: set<int>)
    requires Forwarding(mem0, marked, moved, u) && Fixed(shells, moved, mem0, mem, done) && done !! moved.Keys
    ensures Forwarding(mem, marked, moved, u)
  {
  }

  lemma FixedOne(shells: Shells, moved: map<int, int>, mem0: Memory, mem: Memory, done: set<int>, b: int)
    requires Fixed(shells, moved, mem0, mem, done) && b in mem0 && b !in done
    ensures b in mem && mem[b] == mem0[b] && Fixed(shells, moved, mem0, mem[b := Rewrite(shells, moved, mem[b])],
            done + {b})
    ensures NextBlock(mem, b) == NextBlock(mem0, b)
  {
  }

  lemma FixedSize(shells: Shells, moved: map<int, int>, mem0: Memory, mem: Memory, done: set<int>, b: int)
    requires Fixed(shells, moved, mem0, mem, done) && b in mem0
    ensures b in mem && |mem[b]| == |mem0[b]|
  {
  }

  /** The walk of the third pass over one page. The two assertions are those of the source. */
  method FixPage(h: Heap, p: int, ghost moved: map<int, int>, ghost u: set<int>, ghost mem0: Memory,
                 ghost done: set<int>) returns (ghost done': set<int>)
    requires p in h.hdr && p in h.lay && PageOk(mem0, p, h.hdr[p], h.lay[p])
    requires Fixed(h.shells, moved, mem0, h.mem, done) && Elems(h.lay[p]) !! done
    requires Forwarding(mem0, h.marked, moved, u) && moved.Keys <= u
    requires ObjectsInto(h.shells, mem0, Elems(h.lay[p]) - h.dead, u)
    requires Elems(h.lay[p]) !! moved.Keys && done !! moved.Keys
    requires Elems(h.lay[p]) !! h.marked && Elems(h.lay[p]) !! h.pinned
    modifies h`mem
    ensures done' == done + (Elems(h.lay[p]) - h.dead) && Fixed(h.shells, moved, mem0, h.mem, done')
  {
    hide PageOk, Fixed, Forwarding, Elems, Pos, FieldsInto, Rewrite;
    ghost var bs, i := h.lay[p], 0;
    var free := h.hdr[p].free;
    var b := p + PAGE_HEADER;
    done' := done;
    assert bs[..0] == [];
    KeepNone({});
    assert done + ({} - h.dead) == done;
    WalkStep(mem0, p, h.hdr[p], bs, 0);
    while b != free
      invariant 0 <= i <= |bs| && b == Pos(bs, free, i)
      invariant done' == done + (Elems(bs[..i]) - h.dead) && Fixed(h.shells, moved, mem0, h.mem, done')
      invariant Elems(bs[..i]) <= Elems(bs)
      decreases |bs| - i
    {
      WalkStep(mem0, p, h.hdr[p], bs, i);
      ElemsHas(bs, i);
      assert b !in h.pinned;
      assert b !in h.marked;
      if b !in h.dead {
        ForwardingFrame(h.shells, mem0, h.mem, h.marked, moved, u, done');
        FixedOne(h.shells, moved, mem0, h.mem, done', b);
        FixObject(h, b, moved, u);
        done' := done' + {b};
      }
      FixedSize(h.shells, moved, mem0, h.mem, done', b);
      b := NextBlock(h.mem, b);
      i := i + 1;
    }
    WalkStep(mem0, p, h.hdr[p], bs, i);
    assert bs[..i] == bs;
  }

  /** The third pass of sweep. */
  method FixAlive(h: Heap, alive: seq<int>, ghost moved: map<int, int>, ghost u: set<int>)
    requires PagesOk(h.mem, h.hdr, h.lay, alive) && DisjointPages(h.lay, alive) && NoDup(alive)
    requires Forwarding(h.mem, h.marked, moved, u) && moved.Keys <= u
    requires ObjectsInto(h.shells, h.mem, PageBlocks(h.lay, alive) - h.dead, u)
    requires PageBlocks(h.lay, alive) !! moved.Keys && PageBlocks(h.lay, alive) !! h.marked
    requires PageBlocks(h.lay, alive) !! h.pinned
    modifies h`mem
    ensures Fixed(h.shells, moved, old(h.mem), h.mem, PageBlocks(h.lay, alive) - h.dead)
  {
    hide PageOk, Fixed, Forwarding, Elems, DisjointPages, NoDup, PageBlocks, FieldsInto, Rewrite;
    ghost var mem0 := h.mem;
    ghost var done: set<int> := {};
    var i := 0;
    assert alive[..0] == [];
    NoBlocks(h.lay);
    NothingFixed(h.shells, moved, mem0);
    while i < |alive|
      invariant 0 <= i <= |alive| && done == PageBlocks(h.lay, alive[..i]) - h.dead
      invariant Fixed(h.shells, moved, mem0, h.mem, done)
    {
      var p := alive[i];
      BlocksUpTo(h.lay, alive, i);
      PrefixBlocks(h.lay, alive, i);
      done := FixPage(h, p, moved, u, mem0, done);
      i := i + 1;
    }
    assert alive[..i] == alive;
  }

  lemma NothingFixed(shells: Shells, moved: map<int, int>, mem: Memory)
    ensures Fixed(shells, moved, mem, mem, {})
  {
  }

  lemma PrefixBlocks(lay: Layout, ps: seq<int>, i: nat)
    requires i < |ps| && ps[i] in lay
    ensures PageBlocks(lay, ps[..i]) <= PageBlocks(lay, ps) && Elems(lay[ps[i]]) <= PageBlocks(lay, ps)
  {
    assert ps == ps[..i] + ([ps[i]] + ps[i + 1..]);
    BlocksJoin(lay, ps[..i], [ps[i]] + ps[i + 1..]);
    MoreBlocks(lay, ps[i + 1..], ps[i]);
  }

  /** fix_roots: the word of every registered root, thread by thread. */
  method FixRoots(h: Heap, ghost moved: map<int, int>, ghost u: set<int>)
    requires Forwarding(h.mem, h.marked, moved, u) && RootsInto(h.roots, u)
    modifies h`roots
    ensures h.roots == ForwardAll(moved, old(h.roots)) && RootsFollow(moved, old(h.roots), h.roots)
  {
    hide Forwarding, Forward;
    ghost var roots0 := h.roots;
    var t := 0;
    while t < |h.roots|
      invariant 0 <= t <= |h.roots| == |roots0|
      invariant forall s :: 0 <= s < t ==> h.roots[s] == ForwardChain(moved, roots0[s])
      invariant forall s :: t <= s < |roots0| ==> h.roots[s] == roots0[s]
    {
      ghost var chain := h.roots[t];
      assert chain == roots0[t];
      var i := 0;
      while i < |h.roots[t]|
        invariant |h.roots| == |roots0| && |h.roots[t]| == |chain| && 0 <= i <= |chain|
        invariant forall j :: 0 <= j < |chain| ==> h.roots[t][j] == if j < i then Forward(moved, chain[j]) else chain[j]
        invariant forall s :: 0 <= s < t ==> h.roots[s] == ForwardChain(moved, roots0[s])
        invariant forall s :: t < s < |roots0| ==> h.roots[s] == roots0[s]
      {
        assert RootInto(roots0[t][i], u);
        var w := FixPtr(h, h.roots[t][i], moved, u);
        h.roots := h.roots[t := h.roots[t][i := w]];
        i := i + 1;
      }
      assert h.roots[t] == ForwardChain(moved, chain);
      t := t + 1;
    }
    AllFollow(moved, roots0);
  }

  /** The word keeps its tag bits and stays null if it was; otherwise it names where its object is now. */
  predicate Follows(moved: map<int, int>, w: Word, w': Word) {
    && w'.flags == w.flags && (IsNullWord(w) ==> w' == w)
    && (!IsNullWord(w) ==> TargetOf(w') == if TargetOf(w) in moved then moved[TargetOf(w)] else TargetOf(w))
  }

  /** Each root of each thread follows its own object. */
  ghost predicate RootsFollow(moved: map<int, int>, roots: seq<seq<Word>>, roots': seq<seq<Word>>) {
    && |roots'| == |roots| && (forall t :: 0 <= t < |roots| ==> |roots'[t]| == |roots[t]|)
    && forall t, i :: 0 <= t < |roots| && 0 <= i < |roots[t]| ==> Follows(moved, roots[t][i], roots'[t][i])
  }

  lemma AllFollow(moved: map<int, int>, roots: seq<seq<Word>>)
    ensures RootsFollow(moved, roots, ForwardAll(moved, roots))
  {
  }

  function ForwardChain(moved: map<int, int>, chain: seq<Word>): seq<Word> {
    seq(|chain|, i requires 0 <= i < |chain| => Forward(moved, chain[i]))
  }

  function ForwardAll(moved: map<int, int>, roots: seq<seq<Word>>): seq<seq<Word>> {
    seq(|roots|, t requires 0 <= t < |roots| => ForwardChain(moved, roots[t]))
  }
}
