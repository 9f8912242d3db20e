/** StackMap: the registered roots of one thread, a list used as a stack, with a pool of cells. */
module StackMaps {
  import opened Lists
  import opened Chains

  const ELEMENT: int := 16              // sizeof(StackElement)
  const ELEM_PER_PAGE: int := 4096 / 16

  /** The addresses stored in the cells s, top first. */
  function Stored(addr: map<int, int>, s: seq<int>): (r: seq<int>)
    ensures |r| == |s|
    ensures forall i :: 0 <= i < |s| ==> r[i] == if s[i] in addr then addr[s[i]] else 0
  {
    seq(|s|, i requires 0 <= i < |s| => if s[i] in addr then addr[s[i]] else 0)
  }

  /** The cells are addresses; `next` and `addr` are the contents of their two fields. */
  class StackMap {
    var top: int
    var freeList: int
    var next: Links
    var addr: map<int, int>
    var brk: int                        // cells are mapped below
    ghost var live: seq<int>            // the cells of the root list, and
    ghost var free: seq<int>            // those of the pool

    constructor ()
      ensures Valid() && Roots() == [] && Cells() == {} && next == map[] && addr == map[]
    {
      top, freeList := 0, 0;
      next, addr := map[], map[];
      brk := ELEMENT;
      live, free := [], [];
    }

    /** Both lists are finite, share no cell, and every live cell stores an address. */
    ghost predicate Valid()
      reads this
    {
      && Chain(next, top, live) && Chain(next, freeList, free)
      && Elems(live) !! Elems(free)
      && (forall a :: a in live ==> a in addr)
      && 0 < brk && forall a :: a in Cells() ==> a < brk
    }

    ghost function Cells(): set<int>
      reads `live, `free
    {
      Elems(live) + Elems(free)
    }

    /** The registered addresses, last registered first unless deletions have moved some. */
    ghost function Roots(): seq<int>
      reads `addr, `live
    {
      Stored(addr, live)
    }

    /** register_stack_root */
    method RegisterStackRoot(newAddr: int)
      requires Valid()
      modifies this
      ensures Valid() && Roots() == [newAddr] + old(Roots())
      ensures old(Cells()) <= Cells() && (old(free) != [] ==> Cells() == old(Cells()))
      ensures live[1..] == old(live) && live != []
      ensures old(free) != [] ==> [live[0]] + free == old(free)
      ensures old(free) == [] ==> |free| == ELEM_PER_PAGE - 1
    {
      hide Chain, NoDup, Stored, Elems;
      ChainEnd(next, freeList, free);
      if freeList == 0 {
        MapCells();
      }
      PushCell(newAddr);
    }

    /** The first cell of the pool becomes the top of the list. */
    method PushCell(newAddr: int)
      requires Valid() && free != []
      modifies `top, `next, `addr, `freeList, `live, `free
      ensures Valid() && Cells() == old(Cells()) && Roots() == [newAddr] + old(Roots())
      ensures live == [old(free)[0]] + old(live) && free == old(free)[1..]
    {
      hide Chain, NoDup, Stored;
      ChainEnd(next, top, live);
      PopFree(next, freeList, free);
      var result := freeList;
      freeList := next[result];
      free := free[1..];
      PushLive(next, top, live, result, newAddr, addr, freeList, free);
      next := next[result := top];
      addr := addr[result := newAddr];
      top := result;
      live := [result] + live;
      assert Cells() == old(Cells());
    }

    /** The refill of the pool: a page of cells, pushed one by one. */
    method MapCells()
      requires Valid() && freeList == 0 && free == []
      modifies `freeList, `next, `brk, `free
      ensures Valid() && |free| == ELEM_PER_PAGE && old(Cells()) <= Cells() && unchanged(`addr, `live, `top)
    {
      hide Chain, NoDup;
      var i := 0;
      while i < ELEM_PER_PAGE
        invariant 0 <= i <= ELEM_PER_PAGE && Valid() && unchanged(`addr, `live, `top)
        invariant old(Cells()) <= Cells() && |free| == i
      {
        var data := brk;
        ChainEnd(next, top, live);
        ChainEnd(next, freeList, free);
        PushFree(next, freeList, free, data, top, live);
        next := next[data := freeList];
        freeList := data;
        free := [data] + free;
        brk := brk + ELEMENT;
        i := i + 1;
      }
    }

    /** delete_stack_root. The top cell is unlinked; if it does not hold the address, its own address
        is first saved to the cell nearest the top that does. An address that is not registered
        costs the top one its registration. */
    method DeleteStackRoot(address: int)
      requires Valid() && live != []
      modifies this
      ensures Valid() && Cells() == old(Cells())
      ensures live == old(live)[1..] && free == [old(live)[0]] + old(free)
      ensures Roots() == Deleted(old(Roots()), address)
    {
      hide Chain, NoDup, Stored;
      TopCell(next, top, live, addr);
      if addr[top] != address {
        SaveTop(address);
      } else {
        DeletedAt(Roots(), address, 0);
      }
      StoredTail(addr, live);
      PopTop();
    }

    /** The search loop: the first cell that holds the address gets the top one's. */
    method SaveTop(address: int)
      requires Valid() && live != [] && Stored(addr, live)[0] != address
      modifies `addr
      ensures Valid() && old(addr).Keys <= addr.Keys && Roots()[1..] == Deleted(old(Roots()), address)
    {
      hide Chain, NoDup, Stored;
      ghost var roots, k := Roots(), 0;
      TopCell(next, top, live, addr);
      var temp := top;
      while temp != 0
        invariant unchanged(this)
        invariant 0 <= k <= |live| && temp == At(live, k) && (temp == 0 <==> k == |live|)
        invariant forall j :: 0 <= j < k ==> roots[j] != address
        decreases |live| - k
      {
        CellAt(next, top, live, addr, k);
        if addr[temp] == address {
          Overwrite(next, top, live, addr, k, addr[top]);
          addr := addr[temp := addr[top]];
          break;
        }
        temp := next[temp];
        k := k + 1;
      }
      DeletedAt(roots, address, k);
    }

    /** The top cell goes back to the pool. */
    method PopTop()
      requires Valid() && live != []
      modifies `top, `next, `freeList, `live, `free
      ensures Valid() && Cells() == old(Cells()) && live == old(live)[1..] && free == [old(live)[0]] + old(free)
    {
      hide Chain, NoDup, Elems;
      DropTop(next, top, live, freeList, free);
      var deleted := top;
      top := next[deleted];
      next := next[deleted := freeList];
      freeList := deleted;
      live, free := live[1..], [deleted] + free;
      assert Cells() == old(Cells());
    }
  }

  /** Index of the first occurrence of x, or the length. */
  function FirstAt(s: seq<int>, x: int): (k: nat)
    ensures k <= |s| && (k < |s| ==> s[k] == x) && forall j :: 0 <= j < k ==> s[j] != x
  {
    if s == [] || s[0] == x then 0 else 1 + FirstAt(s[1..], x)
  }

  /** What delete_stack_root makes of the list of registered addresses. */
  function Deleted(roots: seq<int>, address: int): seq<int>
    requires roots != []
  {
    var k := FirstAt(roots, address);
    if k == |roots| then roots[1..] else roots[k := roots[0]][1..]
  }

  /** Deleting takes away exactly one registration: of the address if it is registered, and if and
      only if it is; otherwise of the address that was on top. */
  lemma DeletedMultiset(roots: seq<int>, address: int)
    requires roots != []
    ensures address in roots ==> multiset(Deleted(roots, address)) == multiset(roots) - multiset{address}
    ensures address !in roots ==> multiset(Deleted(roots, address)) == multiset(roots) - multiset{roots[0]}
    ensures multiset(Deleted(roots, address)) == multiset(roots) - multiset{address} <==> address in roots
  {
    var k := FirstAt(roots, address);
    assert address in roots ==> k < |roots|;
    assert roots == [roots[0]] + roots[1..];
    if k < |roots| {
      var r := roots[k := roots[0]];
      assert r == [r[0]] + r[1..];
      assert multiset(r) == multiset(roots) - multiset{address} + multiset{roots[0]};
    } else {
      assert roots[0] in multiset(roots) && multiset(roots[1..])[roots[0]] == multiset(roots)[roots[0]] - 1;
      assert (multiset(roots) - multiset{address})[roots[0]] == multiset(roots)[roots[0]];
    }
  }

  lemma DeletedAt(roots: seq<int>, address: int, k: nat)
    requires roots != [] && k <= |roots| && (forall j :: 0 <= j < k ==> roots[j] != address)
    requires (k < |roots| ==> roots[k] == address)
    ensures Deleted(roots, address) == if k == |roots| then roots[1..] else roots[k := roots[0]][1..]
  {
  }

  lemma PushLive(next: Links, top: int, live: seq<int>, a: int, newAddr: int, addr: map<int, int>, freeList: int,
                 free: seq<int>)
    requires Chain(next, top, live) && Chain(next, freeList, free) && a != 0 && a !in live && a !in free
    ensures Chain(next[a := top], a, [a] + live) && Chain(next[a := top], freeList, free)
    ensures Elems([a] + live) == Elems(live) + {a} && (Elems(live) !! Elems(free) ==> Elems([a] + live) !! Elems(free))
    ensures Stored(addr[a := newAddr], [a] + live) == [newAddr] + Stored(addr, live)
  {
    ChainPush(next, top, live, a);
    ChainFrame(next, next[a := top], freeList, free) by { Linked(next, freeList, free); }
    ElemsJoin([a], live);
    var t, addr' := [a] + live, addr[a := newAddr];
    forall i | 0 <= i < |t|
      ensures Stored(addr', t)[i] == ([newAddr] + Stored(addr, live))[i]
    {
      if i > 0 { assert t[i] == live[i - 1] && live[i - 1] in live; }
    }
  }

  lemma TopCell(next: Links, top: int, live: seq<int>, addr: map<int, int>)
    requires Chain(next, top, live) && live != [] && forall a :: a in live ==> a in addr
    ensures top == live[0] && top != 0 && top in addr && top in next && Stored(addr, live)[0] == addr[top]
  {
  }

  lemma CellAt(next: Links, top: int, live: seq<int>, addr: map<int, int>, k: nat)
    requires Chain(next, top, live) && k < |live| && forall a :: a in live ==> a in addr
    ensures At(live, k) == live[k] && live[k] != 0 && live[k] in addr && live[k] in next
    ensures next[live[k]] == At(live, k + 1) && (At(live, k + 1) == 0 <==> k + 1 == |live|)
    ensures |Stored(addr, live)| == |live| && Stored(addr, live)[k] == addr[live[k]]
  {
  }

  lemma Overwrite(next: Links, top: int, live: seq<int>, addr: map<int, int>, k: nat, x: int)
    requires Chain(next, top, live) && k < |live| && forall a :: a in live ==> a in addr
    ensures Stored(addr[live[k] := x], live) == Stored(addr, live)[k := x]
  {
  }

  lemma StoredTail(addr: map<int, int>, live: seq<int>)
    requires live != []
    ensures Stored(addr, live[1..]) == Stored(addr, live)[1..]
  {
  }
}
