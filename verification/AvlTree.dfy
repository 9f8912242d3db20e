/** The tree of fake roots as a value: what the functions of fake_roots.h make of it, and why it
    stays a balanced search tree. */
module AvlTrees {

  /** height is the byte stored in the node. */
  datatype Tree = Leaf | Node(left: Tree, key: int, height: nat, right: Tree)

  function Height(t: Tree): nat { if t.Leaf? then 0 else t.height }

  function Max(a: int, b: int): int { if a > b then a else b }

  function BFactor(t: Tree): int
    requires t.Node?
  {
    Height(t.right) - Height(t.left)
  }

  /** fixheight: an unsigned char, so the sum wraps. */
  function FixHeight(t: Tree): Tree
    requires t.Node?
  {
    t.(height := (Max(Height(t.left), Height(t.right)) + 1) % 256)
  }

  function RotateRight(p: Tree): Tree
    requires p.Node? && p.left.Node?
  {
    var q := p.left;
    FixHeight(q.(right := FixHeight(p.(left := q.right))))
  }

  function RotateLeft(q: Tree): Tree
    requires q.Node? && q.right.Node?
  {
    var p := q.right;
    FixHeight(p.(left := FixHeight(q.(right := p.left))))
  }

  function Balance(t: Tree): Tree
    requires t.Node?
  {
    var p := FixHeight(t);
    if BFactor(p) == 2 then
      RotateLeft(if BFactor(p.right) < 0 then p.(right := RotateRight(p.right)) else p)
    else if BFactor(p) == -2 then
      RotateRight(if BFactor(p.left) > 0 then p.(left := RotateLeft(p.left)) else p)
    else p
  }

  function Insert(t: Tree, k: int): Tree {
    if t.Leaf? then Node(Leaf, k, 1, Leaf)
    else if k < t.key then Balance(t.(left := Insert(t.left, k)))
    else Balance(t.(right := Insert(t.right, k)))
  }

  function FindMin(t: Tree): int
    requires t.Node?
  {
    if t.left.Node? then FindMin(t.left) else t.key
  }

  function RemoveMin(t: Tree): Tree
    requires t.Node?
  {
    if t.left.Leaf? then t.right else Balance(t.(left := RemoveMin(t.left)))
  }

  function Remove(t: Tree, k: int): Tree {
    if t.Leaf? then Leaf
    else if k < t.key then Balance(t.(left := Remove(t.left, k)))
    else if k > t.key then Balance(t.(right := Remove(t.right, k)))
    else if t.right.Leaf? then t.left
    else Balance(Node(t.left, FindMin(t.right), 0, RemoveMin(t.right)))
  }

  // ----- what the tree holds -----

  /** The keys in order. */
  function Keys(t: Tree): seq<int> { if t.Leaf? then [] else Keys(t.left) + [t.key] + Keys(t.right) }

  ghost predicate Sorted(s: seq<int>) { forall i, j :: 0 <= i < j < |s| ==> s[i] <= s[j] }

  // ----- its shape -----

  function Depth(t: Tree): nat { if t.Leaf? then 0 else 1 + Max(Depth(t.left), Depth(t.right)) }

  function Size(t: Tree): nat { if t.Leaf? then 0 else 1 + Size(t.left) + Size(t.right) }

  /** Stored heights are exact, and at every node the two sides differ by at most one. */
  ghost predicate Avl(t: Tree) {
    t.Node? ==>
      && Avl(t.left) && Avl(t.right)
      && t.height == Depth(t) && -1 <= Depth(t.right) - Depth(t.left) <= 1
  }

  lemma AvlHeight(t: Tree)
    requires Avl(t)
    ensures Height(t) == Depth(t)
  {
  }

  // ----- what the tree holds, and in what order -----

  /** How often e is a key of t. */
  function Count(t: Tree, e: int): nat {
    if t.Leaf? then 0 else Count(t.left, e) + (if e == t.key then 1 else 0) + Count(t.right, e)
  }

  predicate AllAtMost(t: Tree, x: int) { t.Node? ==> AllAtMost(t.left, x) && t.key <= x && AllAtMost(t.right, x) }

  predicate AllAtLeast(t: Tree, x: int) { t.Node? ==> AllAtLeast(t.left, x) && x <= t.key && AllAtLeast(t.right, x) }

  /** A search tree in which equal keys may be on either side. */
  predicate Ordered(t: Tree) {
    t.Node? ==> Ordered(t.left) && Ordered(t.right) && AllAtMost(t.left, t.key) && AllAtLeast(t.right, t.key)
  }

  lemma {:induction false} Loosen(t: Tree, x: int, y: int)
    requires x <= y
    ensures AllAtMost(t, x) ==> AllAtMost(t, y)
    ensures AllAtLeast(t, y) ==> AllAtLeast(t, x)
  {
    if t.Node? {
      Loosen(t.left, x, y);
      Loosen(t.right, x, y);
    }
  }

  lemma {:induction false} KeysWithin(t: Tree, x: int)
    ensures AllAtMost(t, x) ==> forall i :: 0 <= i < |Keys(t)| ==> Keys(t)[i] <= x
    ensures AllAtLeast(t, x) ==> forall i :: 0 <= i < |Keys(t)| ==> x <= Keys(t)[i]
  {
    if t.Node? {
      KeysWithin(t.left, x);
      KeysWithin(t.right, x);
    }
  }

  lemma SortedJoin(a: seq<int>, x: int, b: seq<int>)
    requires Sorted(a) && Sorted(b)
    requires (forall i :: 0 <= i < |a| ==> a[i] <= x) && (forall i :: 0 <= i < |b| ==> x <= b[i])
    ensures Sorted(a + [x] + b)
  {
  }

  lemma KeyCounts(a: seq<int>, x: int, b: seq<int>, e: int)
    ensures multiset(a + [x] + b)[e] == multiset(a)[e] + (if x == e then 1 else 0) + multiset(b)[e]
  {
  }

  lemma {:induction false} CountsRead(t: Tree, e: int)
    ensures multiset(Keys(t))[e] == Count(t, e)
  {
    if t.Node? {
      CountsRead(t.left, e);
      CountsRead(t.right, e);
      KeyCounts(Keys(t.left), t.key, Keys(t.right), e);
    }
  }

  lemma {:induction false} ReadInOrder(t: Tree)
    requires Ordered(t)
    ensures Sorted(Keys(t))
  {
    if t.Node? {
      ReadInOrder(t.left);
      ReadInOrder(t.right);
      KeysWithin(t.left, t.key);
      KeysWithin(t.right, t.key);
      SortedJoin(Keys(t.left), t.key, Keys(t.right));
    }
  }

  lemma {:induction false} Absent(t: Tree, e: int, x: int)
    requires (AllAtMost(t, x) && x < e) || (AllAtLeast(t, x) && e < x)
    ensures Count(t, e) == 0
  {
    if t.Node? {
      Absent(t.left, e, x);
      Absent(t.right, e, x);
    }
  }

  /** fixheight touches the height only, and gets it right when it fits. */
  lemma Fixed(t: Tree)
    requires t.Node?
    ensures var f := FixHeight(t);
      && f.Node? && f.left == t.left && f.right == t.right && f.key == t.key
      && (Max(Height(t.left), Height(t.right)) < 255 ==> f.height == Max(Height(t.left), Height(t.right)) + 1)
  {
  }

  lemma RotateOrdered(t: Tree, e: int)
    requires t.Node?
    ensures t.left.Node? ==> var r := RotateRight(t);
      && r.Node? && Count(r, e) == Count(t, e) && (Ordered(t) ==> Ordered(r))
      && (AllAtMost(r, e) <==> AllAtMost(t, e)) && (AllAtLeast(r, e) <==> AllAtLeast(t, e))
    ensures t.right.Node? ==> var r := RotateLeft(t);
      && r.Node? && Count(r, e) == Count(t, e) && (Ordered(t) ==> Ordered(r))
      && (AllAtMost(r, e) <==> AllAtMost(t, e)) && (AllAtLeast(r, e) <==> AllAtLeast(t, e))
  {
    hide FixHeight;
    if t.left.Node? {
      var q := t.left;
      var below := t.(left := q.right);
      Fixed(below);
      Fixed(q.(right := FixHeight(below)));
      if Ordered(t) {
        assert Ordered(q) && AllAtMost(q, t.key) && Ordered(q.right) && AllAtLeast(q.right, q.key);
        Loosen(t.right, q.key, t.key);
        assert Ordered(below) && AllAtLeast(below, q.key);
      }
    }
    if t.right.Node? {
      var p := t.right;
      var below := t.(right := p.left);
      Fixed(below);
      Fixed(p.(left := FixHeight(below)));
      if Ordered(t) {
        assert Ordered(p) && AllAtLeast(p, t.key) && Ordered(p.left) && AllAtMost(p.left, p.key);
        Loosen(t.left, t.key, p.key);
        assert Ordered(below) && AllAtMost(below, p.key);
      }
    }
  }

  /** Rebalancing changes neither the keys nor their order. */
  lemma BalanceOrdered(t: Tree, e: int)
    requires t.Node?
    ensures var r := Balance(t);
      && r.Node? && Count(r, e) == Count(t, e) && (Ordered(t) ==> Ordered(r))
      && (AllAtMost(r, e) <==> AllAtMost(t, e)) && (AllAtLeast(r, e) <==> AllAtLeast(t, e))
  {
    hide RotateLeft, RotateRight, FixHeight;
    var p := FixHeight(t);
    Fixed(t);
    if BFactor(p) == 2 && BFactor(p.right) < 0 {
      RotateOrdered(p.right, e);
      RotateOrdered(p.right, p.key);
      RotateOrdered(p.(right := RotateRight(p.right)), e);
    } else if BFactor(p) == -2 && BFactor(p.left) > 0 {
      RotateOrdered(p.left, e);
      RotateOrdered(p.left, p.key);
      RotateOrdered(p.(left := RotateLeft(p.left)), e);
    } else {
      RotateOrdered(p, e);
    }
  }

  lemma {:induction false} InsertWithin(t: Tree, k: int, x: int)
    ensures AllAtMost(Insert(t, k), x) <==> AllAtMost(t, x) && k <= x
    ensures AllAtLeast(Insert(t, k), x) <==> AllAtLeast(t, x) && x <= k
  {
    if t.Node? {
      hide Balance;
      InsertWithin(t.left, k, x);
      InsertWithin(t.right, k, x);
      BalanceOrdered(t.(left := Insert(t.left, k)), x);
      BalanceOrdered(t.(right := Insert(t.right, k)), x);
    }
  }

  /** insert adds exactly one occurrence of the key, and keeps the keys in order. */
  lemma {:induction false} InsertOrdered(t: Tree, k: int, e: int)
    requires Ordered(t)
    ensures Ordered(Insert(t, k)) && Count(Insert(t, k), e) == Count(t, e) + (if e == k then 1 else 0)
  {
    if t.Node? {
      hide Balance;
      if k < t.key {
        InsertOrdered(t.left, k, e);
        InsertWithin(t.left, k, t.key);
        BalanceOrdered(t.(left := Insert(t.left, k)), e);
      } else {
        InsertOrdered(t.right, k, e);
        InsertWithin(t.right, k, t.key);
        BalanceOrdered(t.(right := Insert(t.right, k)), e);
      }
    }
  }

  lemma {:induction false} RemoveMinWithin(t: Tree, x: int)
    requires t.Node?
    ensures AllAtMost(t, x) <==> AllAtMost(RemoveMin(t), x) && FindMin(t) <= x
    ensures AllAtLeast(t, x) <==> AllAtLeast(RemoveMin(t), x) && x <= FindMin(t)
  {
    if t.left.Node? {
      hide Balance;
      RemoveMinWithin(t.left, x);
      BalanceOrdered(t.(left := RemoveMin(t.left)), x);
    }
  }

  /** removemin takes away one occurrence of the least key, which findmin returns. */
  lemma {:induction false} RemoveMinOrdered(t: Tree, e: int)
    requires t.Node? && Ordered(t)
    ensures Ordered(RemoveMin(t)) && Count(t, e) == Count(RemoveMin(t), e) + (if e == FindMin(t) then 1 else 0)
    ensures AllAtLeast(RemoveMin(t), FindMin(t)) && FindMin(t) <= t.key
  {
    if t.left.Node? {
      hide Balance;
      RemoveMinOrdered(t.left, e);
      RemoveMinWithin(t.left, t.key);
      var t' := t.(left := RemoveMin(t.left));
      Loosen(t.right, FindMin(t), t.key);
      BalanceOrdered(t', e);
      BalanceOrdered(t', FindMin(t));
    }
  }

  lemma {:induction false} RemoveWithin(t: Tree, k: int, x: int)
    ensures AllAtMost(t, x) ==> AllAtMost(Remove(t, k), x)
    ensures AllAtLeast(t, x) ==> AllAtLeast(Remove(t, k), x)
  {
    if t.Node? {
      hide Balance;
      RemoveWithin(t.left, k, x);
      RemoveWithin(t.right, k, x);
      BalanceOrdered(t.(left := Remove(t.left, k)), x);
      BalanceOrdered(t.(right := Remove(t.right, k)), x);
      if t.right.Node? {
        RemoveMinWithin(t.right, x);
        BalanceOrdered(Node(t.left, FindMin(t.right), 0, RemoveMin(t.right)), x);
      }
    }
  }

  /** remove takes away exactly one occurrence of the key if there is one, nothing otherwise, and
      keeps the keys in order. */
  lemma {:induction false} RemoveOrdered(t: Tree, k: int, e: int)
    requires Ordered(t)
    ensures Ordered(Remove(t, k))
    ensures Count(Remove(t, k), e) == Count(t, e) - (if e == k && Count(t, k) > 0 then 1 else 0)
  {
    if t.Node? {
      hide Balance;
      if k < t.key {
        RemoveOrdered(t.left, k, e);
        RemoveWithin(t.left, k, t.key);
        Absent(t.right, k, t.key);
        BalanceOrdered(t.(left := Remove(t.left, k)), e);
      } else if k > t.key {
        RemoveOrdered(t.right, k, e);
        RemoveWithin(t.right, k, t.key);
        Absent(t.left, k, t.key);
        BalanceOrdered(t.(right := Remove(t.right, k)), e);
      } else if t.right.Node? {
        RemoveMinOrdered(t.right, e);
        RemoveMinWithin(t.right, t.key);
        Loosen(t.left, t.key, FindMin(t.right));
        BalanceOrdered(Node(t.left, FindMin(t.right), 0, RemoveMin(t.right)), e);
      }
    }
  }

  // ----- balance -----

  /** Two AVL sides that differ by at most one make an AVL node. */
  lemma NodeAvl(t: Tree)
    requires t.Node? && Avl(t.left) && Avl(t.right) && -1 <= Depth(t.right) - Depth(t.left) <= 1
    requires Max(Depth(t.left), Depth(t.right)) < 255
    ensures Avl(FixHeight(t)) && Depth(FixHeight(t)) == Max(Depth(t.left), Depth(t.right)) + 1
  {
  }

  /** A right side higher by two. */
  lemma LeanRight(p: Tree)
    requires p.Node? && Avl(p.left) && Avl(p.right) && Depth(p.right) == Depth(p.left) + 2 < 255
    ensures p.right.Node?
    ensures BFactor(p.right) < 0 ==> var b := RotateLeft(p.(right := RotateRight(p.right)));
            Avl(b)
            && Depth(b) == Depth(p.right)
    ensures BFactor(p.right) >= 0 ==> var b := RotateLeft(p); Avl(b) && Depth(p.right) <= Depth(b) <= Depth(p.right) + 1
  {
    hide FixHeight;
    var r := p.right;
    AvlHeight(r.left);
    AvlHeight(r.right);
    if BFactor(r) < 0 {
      var m := r.left;
      var inner, outer := r.(left := m.right), p.(right := m.left);
      NodeAvl(inner);
      NodeAvl(outer);
      Fixed(m.(right := FixHeight(inner)));
      NodeAvl(FixHeight(m.(right := FixHeight(inner))).(left := FixHeight(outer)));
      Fixed(FixHeight(m.(right := FixHeight(inner))).(left := FixHeight(outer)));
      assert p.(right := RotateRight(r)).(right := m.left) == outer;
    } else {
      var outer := p.(right := r.left);
      NodeAvl(outer);
      NodeAvl(r.(left := FixHeight(outer)));
    }
  }

  /** A left side higher by two. */
  lemma LeanLeft(p: Tree)
    requires p.Node? && Avl(p.left) && Avl(p.right) && Depth(p.left) == Depth(p.right) + 2 < 255
    ensures p.left.Node?
    ensures BFactor(p.left) > 0 ==> var b := RotateRight(p.(left := RotateLeft(p.left)));
            Avl(b)
            && Depth(b) == Depth(p.left)
    ensures BFactor(p.left) <= 0 ==> var b := RotateRight(p); Avl(b) && Depth(p.left) <= Depth(b) <= Depth(p.left) + 1
  {
    hide FixHeight;
    var l := p.left;
    AvlHeight(l.left);
    AvlHeight(l.right);
    if BFactor(l) > 0 {
      var m := l.right;
      var inner, outer := l.(right := m.left), p.(left := m.right);
      NodeAvl(inner);
      NodeAvl(outer);
      Fixed(m.(left := FixHeight(inner)));
      NodeAvl(FixHeight(m.(left := FixHeight(inner))).(right := FixHeight(outer)));
      Fixed(FixHeight(m.(left := FixHeight(inner))).(right := FixHeight(outer)));
      assert p.(left := RotateLeft(l)).(left := m.right) == outer;
    } else {
      var outer := p.(left := l.right);
      NodeAvl(outer);
      NodeAvl(l.(right := FixHeight(outer)));
    }
  }

  /** Two AVL sides that differ by at most two make an AVL tree, at most one higher than the higher
      side, and exactly so if they differ by at most one. */
  lemma BalanceAvl(t: Tree)
    requires t.Node? && Avl(t.left) && Avl(t.right) && -2 <= Depth(t.right) - Depth(t.left) <= 2
    requires Max(Depth(t.left), Depth(t.right)) < 255
    ensures Avl(Balance(t))
    ensures var m := Max(Depth(t.left), Depth(t.right));
      && m <= Depth(Balance(t)) <= m + 1
      && (-1 <= Depth(t.right) - Depth(t.left) <= 1 ==> Depth(Balance(t)) == m + 1)
  {
    hide FixHeight, RotateLeft, RotateRight;
    AvlHeight(t.left);
    AvlHeight(t.right);
    Fixed(t);
    var p := FixHeight(t);
    if Depth(t.right) == Depth(t.left) + 2 {
      LeanRight(p);
    } else if Depth(t.left) == Depth(t.right) + 2 {
      LeanLeft(p);
    } else {
      NodeAvl(t);
    }
  }

  /** insert keeps the tree an AVL tree, as high as it was or one higher. */
  lemma {:induction false} InsertAvl(t: Tree, k: int)
    requires Avl(t) && Depth(t) < 255
    ensures Avl(Insert(t, k)) && Depth(t) <= Depth(Insert(t, k)) <= Depth(t) + 1
  {
    if t.Node? {
      hide Balance;
      if k < t.key {
        InsertAvl(t.left, k);
        BalanceAvl(t.(left := Insert(t.left, k)));
      } else {
        InsertAvl(t.right, k);
        BalanceAvl(t.(right := Insert(t.right, k)));
      }
    }
  }

  lemma {:induction false} RemoveMinAvl(t: Tree)
    requires t.Node? && Avl(t) && Depth(t) < 256
    ensures Avl(RemoveMin(t)) && Depth(t) - 1 <= Depth(RemoveMin(t)) <= Depth(t)
  {
    if t.left.Node? {
      hide Balance;
      RemoveMinAvl(t.left);
      BalanceAvl(t.(left := RemoveMin(t.left)));
    }
  }

  /** remove keeps the tree an AVL tree, as high as it was or one lower. */
  lemma {:induction false} RemoveAvl(t: Tree, k: int)
    requires Avl(t) && Depth(t) < 256
    ensures Avl(Remove(t, k)) && Depth(t) - 1 <= Depth(Remove(t, k)) <= Depth(t)
  {
    if t.Node? {
      hide Balance;
      if k < t.key {
        RemoveAvl(t.left, k);
        BalanceAvl(t.(left := Remove(t.left, k)));
      } else if k > t.key {
        RemoveAvl(t.right, k);
        BalanceAvl(t.(right := Remove(t.right, k)));
      } else if t.right.Node? {
        RemoveMinAvl(t.right);
        BalanceAvl(Node(t.left, FindMin(t.right), 0, RemoveMin(t.right)));
      }
    }
  }

  // ----- why a byte is enough for the height -----

  /** The least number of nodes of an AVL tree of the given depth. */
  function MinSize(depth: nat): nat {
    if depth == 0 then 0 else if depth == 1 then 1 else 1 + MinSize(depth - 1) + MinSize(depth - 2)
  }

  function Pow2(n: nat): nat { if n == 0 then 1 else 2 * Pow2(n - 1) }

  lemma {:induction false} MinSizeGrows(a: nat, b: nat)
    requires a <= b
    ensures MinSize(a) <= MinSize(b)
    decreases b
  {
    if a < b {
      MinSizeGrows(a, b - 1);
    }
  }

  /** The Fibonacci bound. */
  lemma {:induction false} SizeBound(t: Tree)
    requires Avl(t)
    ensures MinSize(Depth(t)) <= Size(t)
  {
    if t.Node? {
      SizeBound(t.left);
      SizeBound(t.right);
      var d := Depth(t);
      if d > 1 {
        MinSizeGrows(d - 2, Depth(t.left));
        MinSizeGrows(d - 2, Depth(t.right));
      }
    }
  }

  lemma {:induction false} MinSizeDoubles(n: nat)
    ensures MinSize(2 * n) + 1 >= Pow2(n)
  {
    if n > 0 {
      MinSizeDoubles(n - 1);
      MinSizeGrows(2 * n - 2, 2 * n - 1);
    }
  }

  /** With at most 2^64 nodes an AVL tree is less than 130 deep: its heights fit a byte with room
      to spare, so no height that insert or remove computes wraps. */
  lemma HeightFitsByte(t: Tree)
    requires Avl(t) && Size(t) <= Pow2(64)
    ensures Depth(t) < 130 && Height(t) == Depth(t)
  {
    hide Pow2, MinSize, Size;
    SizeBound(t);
    AvlHeight(t);
    MinSizeDoubles(65);
    Twice(64);
    Twice(63);
    if Depth(t) >= 130 {
      MinSizeGrows(130, Depth(t));
    }
  }

  lemma {:induction false} Twice(n: nat)
    ensures Pow2(n + 1) == 2 * Pow2(n) && Pow2(n) >= 1
  {
    if n > 0 { Twice(n - 1); }
  }

  // ----- the two operations on any tree there can be -----

  /** A search tree that is balanced, with exact heights, and no larger than an address space. */
  ghost predicate Good(t: Tree) { Avl(t) && Ordered(t) && Size(t) <= Pow2(64) }

  lemma {:induction false} SizeIsKeys(t: Tree)
    ensures Size(t) == |Keys(t)|
  {
    if t.Node? {
      SizeIsKeys(t.left);
      SizeIsKeys(t.right);
    }
  }

  /** Equal counts of every key make equal multisets. */
  lemma KeysFromCounts(t: Tree, ks: multiset<int>)
    requires forall e :: Count(t, e) == ks[e]
    ensures multiset(Keys(t)) == ks && Size(t) == |ks|
  {
    forall e
      ensures multiset(Keys(t))[e] == ks[e]
    {
      CountsRead(t, e);
      assert Count(t, e) == ks[e];
    }
    SizeIsKeys(t);
    assert |multiset(Keys(t))| == |Keys(t)|;
  }

  /** insert on any such tree: exactly the key is added, and all is well for the next call while there
      is an address left. */
  lemma InsertKeepsAll(t: Tree, k: int)
    requires Good(t)
    ensures Avl(Insert(t, k)) && Ordered(Insert(t, k)) && Sorted(Keys(Insert(t, k)))
    ensures multiset(Keys(Insert(t, k))) == multiset(Keys(t)) + multiset{k} && Size(Insert(t, k)) == Size(t) + 1
    ensures Good(Insert(t, k)) <==> Size(t) < Pow2(64)
  {
    hide Insert, Pow2, Avl;
    HeightFitsByte(t);
    InsertAvl(t, k);
    var t', ks := Insert(t, k), multiset(Keys(t)) + multiset{k};
    forall e
      ensures Count(t', e) == ks[e] && Ordered(t')
    {
      InsertOrdered(t, k, e);
      CountsRead(t, e);
    }
    KeysFromCounts(t', ks);
    SizeIsKeys(t);
    InsertOrdered(t, k, k);
    ReadInOrder(t');
  }

  /** remove on any such tree: one occurrence of the key goes if there is one. */
  lemma RemoveKeepsAll(t: Tree, k: int)
    requires Good(t)
    ensures Good(Remove(t, k)) && Sorted(Keys(Remove(t, k)))
    ensures multiset(Keys(Remove(t, k))) == multiset(Keys(t)) - multiset{k}
    ensures Size(Remove(t, k)) == Size(t) - (if k in Keys(t) then 1 else 0)
  {
    hide Remove, Pow2, Avl;
    HeightFitsByte(t);
    RemoveAvl(t, k);
    var t', ks := Remove(t, k), multiset(Keys(t)) - multiset{k};
    CountsRead(t, k);
    forall e
      ensures Count(t', e) == ks[e]
    {
      RemoveOrdered(t, k, e);
      CountsRead(t, e);
    }
    KeysFromCounts(t', ks);
    SizeIsKeys(t);
    OneLess(Keys(t), k);
    RemoveOrdered(t, k, k);
    ReadInOrder(t');
  }

  lemma OneLess(s: seq<int>, k: int)
    ensures |multiset(s) - multiset{k}| == |s| - (if k in s then 1 else 0)
  {
    var m := multiset(s);
    assert k in s <==> k in m;
    if k in m {
      assert m == m - multiset{k} + multiset{k};
    } else {
      assert m - multiset{k} == m;
    }
  }
}
