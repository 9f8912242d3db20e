/** What the relocation map of a sweep means for the object graph. */
module Isomorphism {
  import opened Lists
  import opened Objects
  import opened Pages
  import opened Heaps
  import opened Evacuate
  import opened FixUp
  import opened Sweep
  import SweepPinned

  /** Every payload word that is not a gc_ptr field is untouched, the meta included; every field
      keeps its tag bits, stays null if it was, and otherwise names where its target has gone. */
  lemma RewrittenWords(shells: Shells, moved: map<int, int>, d: Payload, k: int)
    requires MetaOk(shells, d) && 0 <= k < |d|
    requires forall b :: b in moved ==> moved[b] > NULL
    ensures var w, w' := d[k], Rewrite(shells, moved, d)[k];
      && (k !in Fields(shells, d) ==> w' == w)
      && (k in Fields(shells, d) ==> w'.flags == w.flags && (IsNullWord(w') <==> IsNullWord(w)))
      && (k in Fields(shells, d) && !IsNullWord(w) ==> TargetOf(w') == Relocate(moved, TargetOf(w)))
  {
  }

  lemma RewrittenMeta(shells: Shells, moved: map<int, int>, d: Payload)
    requires MetaOk(shells, d)
    ensures MetaOk(shells, Rewrite(shells, moved, d)) && Fields(shells, Rewrite(shells, moved, d)) == Fields(shells, d)
  {
    FieldsInPayload(shells, d);
    assert Rewrite(shells, moved, d)[1] == d[1] && Rewrite(shells, moved, d)[2] == d[2];
  }

  /** The edges of a copied object are the relocated edges of the original. */
  lemma RewrittenSucc(shells: Shells, moved: map<int, int>, d: Payload)
    requires PayloadOk(shells, d)
    requires forall b :: b in moved ==> moved[b] > NULL
    ensures PayloadOk(shells, Rewrite(shells, moved, d))
    ensures Succ(shells, Rewrite(shells, moved, d)) == Relocated(moved, Succ(shells, d))
  {
    var r := Rewrite(shells, moved, d);
    RewrittenMeta(shells, moved, d);
    FieldsInPayload(shells, d);
    hide Rewrite, Fields, MetaOk, Forward;
    forall k | k in Fields(shells, d)
      ensures 0 <= k < |d| && r[k].flags == d[k].flags && (IsNullWord(r[k]) <==> IsNullWord(d[k]))
      ensures !IsNullWord(d[k]) ==> TargetOf(r[k]) == Relocate(moved, TargetOf(d[k]))
      ensures !IsNullWord(d[k]) ==> TargetOf(d[k]) in Succ(shells, d) && TargetOf(r[k]) in Succ(shells, r)
    {
      RewrittenWords(shells, moved, d, k);
    }
    forall t | t in Succ(shells, r)
      ensures t in Relocated(moved, Succ(shells, d))
    {
      var k :| k in Fields(shells, r) && 0 <= k < |r| && !IsNullWord(r[k]) && TargetOf(r[k]) == t;
      assert TargetOf(d[k]) in Succ(shells, d);
    }
    forall s | s in Succ(shells, d)
      ensures Relocate(moved, s) in Succ(shells, r)
    {
      var k :| k in Fields(shells, d) && 0 <= k < |d| && !IsNullWord(d[k]) && TargetOf(d[k]) == s;
      assert TargetOf(r[k]) in Succ(shells, r);
    }
  }

  /** No surviving big block has a field that points to a block which is about to move. */
  ghost predicate BigFieldsStay(shells: Shells, mem: Memory, m: set<int>, big: set<int>, moved: map<int, int>) {
    forall b :: b in m * big && b in mem && MetaOk(shells, mem[b]) ==> Succ(shells, mem[b]) !! moved.Keys
  }

  /** The heap after the sweep is an object graph over the relocated survivors exactly when no
      surviving big block points to a block that had to move: the third pass visits pages only. */
  lemma SweptGraph(shells: Shells, mem0: Memory, mem: Memory, m: set<int>, big: set<int>, moved: map<int, int>)
    requires Graph(shells, mem0, m, {}) && Isomorphic(shells, mem0, mem, m, big, moved)
    requires moved.Keys <= m && Images(moved) !! m && moved.Keys !! big
    requires forall b :: b in moved ==> moved[b] > NULL
    ensures Graph(shells, mem, Relocated(moved, m), {}) <==> BigFieldsStay(shells, mem0, m, big, moved)
  {
    if BigFieldsStay(shells, mem0, m, big, moved) {
      forall c | c in Relocated(moved, m)
        ensures c in mem && PayloadOk(shells, mem[c]) && Succ(shells, mem[c]) <= Relocated(moved, m)
      {
        var b :| b in m && Relocate(moved, b) == c;
        SurvivorEdges(shells, mem0, mem, m, big, moved, b);
      }
    }
    if Graph(shells, mem, Relocated(moved, m), {}) {
      forall b, t | b in m * big && b in mem0 && MetaOk(shells, mem0[b]) && t in Succ(shells, mem0[b])
        ensures t !in moved
      {
        assert b !in moved && Relocate(moved, b) == b && b in Relocated(moved, m) && mem[b] == mem0[b];
        assert t in Relocated(moved, m);
        var a :| a in m && Relocate(moved, a) == t;
        assert a in moved ==> moved[a] in Images(moved);
      }
    }
  }

  lemma SurvivorEdges(shells: Shells, mem0: Memory, mem: Memory, m: set<int>, big: set<int>, moved: map<int, int>,
                    b: int)
    requires Graph(shells, mem0, m, {}) && Isomorphic(shells, mem0, mem, m, big, moved) && b in m
    requires moved.Keys !! big && BigFieldsStay(shells, mem0, m, big, moved)
    requires forall a :: a in moved ==> moved[a] > NULL
    ensures var c := Relocate(moved, b);
            c in mem && PayloadOk(shells, mem[c])
            && Succ(shells, mem[c]) == Relocated(moved, Succ(shells, mem0[b]))
    ensures Relocated(moved, Succ(shells, mem0[b])) <= Relocated(moved, m)
  {
    hide Rewrite, Fields, Forward;
    assert b in m - {};
    var edges := Succ(shells, mem0[b]);
    assert edges <= m;
    if b in big {
      assert edges !! moved.Keys;
      forall t | t in edges
        ensures Relocate(moved, t) == t && t in Relocated(moved, edges)
      {
        assert t !in moved.Keys;
        assert Relocate(moved, t) in Relocated(moved, edges);
      }
      assert Relocated(moved, edges) == edges;
    } else {
      RewrittenSucc(shells, moved, mem0[b]);
    }
  }

  /** Roots after the sweep point to survivors. */
  lemma SweptRoots(moved: map<int, int>, roots: seq<seq<Word>>, m: set<int>)
    requires RootsInto(roots, m) && forall b :: b in moved ==> moved[b] > NULL
    ensures RootsInto(ForwardAll(moved, roots), Relocated(moved, m))
  {
  }

  /** A pinned block does not move. */
  lemma PinnedStays(lay: Layout, marked: set<int>, pinned: set<int>, ps: seq<int>, b: int)
    requires DisjointPages(lay, ps) && b in pinned
    ensures b !in Movable(lay, marked, pinned, ps)
  {
    var pages := SweepPinned.PinnedPages(lay, pinned, ps);
    Members(ps, Elems(ps) - pages);
    forall p | p in ps && p in lay && b in lay[p]
      ensures p in pages
    {
      assert SweepPinned.PageHasPin(lay, pinned, p);
    }
  }
}
