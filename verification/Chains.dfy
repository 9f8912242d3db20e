/** Singly linked lists in memory: nodes are addresses, `next` is the contents of their next fields,
    0 is the null pointer. */
module Chains {
  import opened Lists

  type Links = map<int, int>

  function At(s: seq<int>, i: int): int { if 0 <= i < |s| then s[i] else 0 }

  /** The list from head runs through s in order and ends with null. */
  ghost predicate Chain(next: Links, head: int, s: seq<int>) {
    && head == At(s, 0) && NoDup(s)
    && forall i :: 0 <= i < |s| ==> s[i] != 0 && s[i] in next && next[s[i]] == At(s, i + 1)
  }

  /** A list is determined by its links: there is no other way to read it. */
  lemma {:induction false} ChainUnique(next: Links, head: int, s: seq<int>, t: seq<int>)
    requires Chain(next, head, s) && Chain(next, head, t)
    ensures s == t
    decreases |s|
  {
    if s != [] && t != [] {
      ChainTail(next, head, s);
      ChainTail(next, head, t);
      ChainUnique(next, next[head], s[1..], t[1..]);
      assert s == [s[0]] + s[1..] && t == [t[0]] + t[1..];
    }
  }

  lemma ChainTail(next: Links, head: int, s: seq<int>)
    requires Chain(next, head, s) && s != []
    ensures head != 0 && head == s[0] && head in next && Chain(next, next[head], s[1..]) && head !in s[1..]
  {
  }

  lemma ChainEnd(next: Links, head: int, s: seq<int>)
    requires Chain(next, head, s)
    ensures head == 0 <==> s == []
    ensures forall a :: a in s <==> a in Elems(s)
    ensures 0 !in s
  {
  }

  lemma ChainFrame(next: Links, next': Links, head: int, s: seq<int>)
    requires Chain(next, head, s) && forall a :: a in s ==> a in next && a in next' && next'[a] == next[a]
    ensures Chain(next', head, s)
  {
  }

  /** The push at the front that every list here uses. */
  lemma ChainPush(next: Links, head: int, s: seq<int>, a: int)
    requires Chain(next, head, s) && a != 0 && a !in s
    ensures Chain(next[a := head], a, [a] + s)
  {
  }

  function Drop(s: seq<int>, k: nat): seq<int>
    requires k < |s|
  {
    s[..k] + s[k + 1..]
  }

  lemma DropFacts(s: seq<int>, k: nat)
    requires NoDup(s) && k < |s|
    ensures NoDup(Drop(s, k)) && s[k] !in Drop(s, k) && |Drop(s, k)| == |s| - 1
    ensures Elems(Drop(s, k)) == Elems(s) - {s[k]}
    ensures forall i :: 0 <= i < |s| - 1 ==> Drop(s, k)[i] == if i < k then s[i] else s[i + 1]
  {
  }

  /** The list without its k-th node, whose predecessor skips it. */
  lemma ChainCut(next: Links, head: int, s: seq<int>, k: nat)
    requires Chain(next, head, s) && k < |s|
    ensures s[k] in next
    ensures var next' := if k == 0 then next else next[s[k - 1] := next[s[k]]];
            Chain(next', if k == 0 then next[s[0]] else head, Drop(s, k))
  {
  }

  lemma OnlyAt(s: seq<int>, k: nat)
    requires NoDup(s) && k < |s|
    ensures forall j :: 0 <= j < |s| && j != k ==> s[j] != s[k]
  {
  }

  lemma PopFree(next: Links, freeList: int, free: seq<int>)
    requires Chain(next, freeList, free) && free != []
    ensures freeList == free[0] && freeList != 0 && freeList in next && Chain(next, next[freeList], free[1..])
    ensures freeList !in free[1..] && Elems(free) == Elems(free[1..]) + {freeList}
  {
  }

  lemma Linked(next: Links, head: int, s: seq<int>)
    requires Chain(next, head, s)
    ensures forall a :: a in s ==> a in next && a != 0
  {
  }

  lemma PushFree(next: Links, freeList: int, free: seq<int>, a: int, top: int, live: seq<int>)
    requires Chain(next, freeList, free) && Chain(next, top, live) && a != 0 && a !in free && a !in live
    ensures Chain(next[a := freeList], a, [a] + free) && Chain(next[a := freeList], top, live)
    ensures Elems([a] + free) == Elems(free) + {a}
  {
  }

  lemma DropTop(next: Links, top: int, live: seq<int>, freeList: int, free: seq<int>)
    requires Chain(next, top, live) && live != [] && Chain(next, freeList, free) && Elems(live) !! Elems(free)
    ensures top in next && Chain(next[top := freeList], next[top], live[1..])
            && Chain(next[top := freeList], top, [top] + free)
    ensures Elems(live[1..]) !! Elems([top] + free)
            && Elems(live[1..]) + Elems([top] + free) == Elems(live) + Elems(free)
    ensures forall a :: a in live[1..] ==> a in live
    ensures top == live[0]
  {
    ChainTail(next, top, live);
    assert live == [top] + live[1..] && top in Elems(live);
    ElemsJoin([top], live[1..]);
    assert top !in free by { assert top in free ==> top in Elems(free); }
    ChainPush(next, freeList, free, top);
    ElemsJoin([top], free);
    Linked(next, next[top], live[1..]);
    ChainFrame(next, next[top := freeList], next[top], live[1..]);
  }
}
