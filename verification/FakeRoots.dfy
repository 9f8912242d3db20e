/** The nodes of fake_roots.h in memory: each function edits them in place, and makes of them the tree
    that its counterpart in AvlTrees makes of the value. */
module FakeRoots {
  import opened AvlTrees

  /** struct node, at an address; 0 is the null pointer. */
  datatype Cell = Cell(key: int, height: nat, left: int, right: int)

  type Cells = map<int, Cell>

  // ----- which tree the nodes from p on hold -----

  ghost function Foot(mem: Cells, p: int, t: Tree): set<int>
    decreases t
  {
    if t.Leaf? || p !in mem then {} else {p} + Foot(mem, mem[p].left, t.left) + Foot(mem, mem[p].right, t.right)
  }

  /** The nodes reached from p are those of t, and none is reached twice. */
  ghost predicate Rep(mem: Cells, p: int, t: Tree)
    decreases t
  {
    if t.Leaf? then p == 0
    else
      && p != 0 && p in mem && mem[p].key == t.key && mem[p].height == t.height
      && Rep(mem, mem[p].left, t.left) && Rep(mem, mem[p].right, t.right)
      && p !in Foot(mem, mem[p].left, t.left) && p !in Foot(mem, mem[p].right, t.right)
      && Foot(mem, mem[p].left, t.left) !! Foot(mem, mem[p].right, t.right)
  }

  /** The subtrees of p are l and r, whatever key and height p itself stores. */
  ghost predicate Parts(mem: Cells, p: int, l: Tree, r: Tree) {
    p in mem && Rep(mem, p, Node(l, mem[p].key, mem[p].height, r))
  }

  ghost function PartTree(mem: Cells, p: int, l: Tree, r: Tree): Tree
    requires p in mem
  {
    Node(l, mem[p].key, mem[p].height, r)
  }

  /** Memory outside a footprint is as it was. */
  ghost predicate Outside(mem: Cells, mem': Cells, foot: set<int>) {
    forall a :: a in mem && a !in foot ==> a in mem' && mem'[a] == mem[a]
  }

  lemma {:induction false} Frame(mem: Cells, mem': Cells, p: int, t: Tree)
    requires Rep(mem, p, t) && forall a :: a in Foot(mem, p, t) && a in mem ==> a in mem' && mem'[a] == mem[a]
    ensures Rep(mem', p, t) && Foot(mem', p, t) == Foot(mem, p, t)
    decreases t
  {
    if t.Node? {
      assert p in Foot(mem, p, t);
      Frame(mem, mem', mem[p].left, t.left);
      Frame(mem, mem', mem[p].right, t.right);
    }
  }

  lemma {:induction false} FootMapped(mem: Cells, p: int, t: Tree)
    requires Rep(mem, p, t)
    ensures forall a :: a in Foot(mem, p, t) ==> a in mem && a != 0
    ensures t.Node? ==> p in Foot(mem, p, t)
    ensures p == 0 <==> t.Leaf?
    decreases t
  {
    if t.Node? {
      FootMapped(mem, mem[p].left, t.left);
      FootMapped(mem, mem[p].right, t.right);
    }
  }

  /** Writing a node that joins two trees it is not part of. */
  lemma Join(mem: Cells, p: int, k: int, h: nat, lp: int, l: Tree, rp: int, r: Tree)
    requires Rep(mem, lp, l) && Rep(mem, rp, r) && Foot(mem, lp, l) !! Foot(mem, rp, r)
    requires p != 0 && p !in Foot(mem, lp, l) && p !in Foot(mem, rp, r)
    ensures var mem' := mem[p := Cell(k, h, lp, rp)];
      && Rep(mem', p, Node(l, k, h, r)) && Foot(mem', p, Node(l, k, h, r)) == {p} + Foot(mem, lp, l) + Foot(mem, rp, r)
  {
    var mem' := mem[p := Cell(k, h, lp, rp)];
    FootMapped(mem, lp, l);
    FootMapped(mem, rp, r);
    Frame(mem, mem', lp, l);
    Frame(mem, mem', rp, r);
  }

  /** The global fake_roots, and the memory its nodes are in: always a balanced search tree. */
  class FakeRootSet {
    var mem: Cells
    var fakeRoots: int
    var brk: int
    ghost var tree: Tree

    constructor ()
      ensures Valid() && tree == Leaf
    {
      mem, fakeRoots, brk, tree := map[], 0, 1, Leaf;
    }

    ghost predicate Valid()
      reads this
    {
      Rep(mem, fakeRoots, tree) && Good(tree) && brk > 0 && forall a :: a in mem ==> a < brk
    }

    function HeightAt(p: int): nat
      reads this
    {
      if p != 0 && p in mem then mem[p].height else 0
    }

    method FixNode(p: int, ghost l: Tree, ghost r: Tree)
      requires Parts(mem, p, l, r)
      modifies `mem
      ensures Rep(mem, p, FixHeight(old(PartTree(mem, p, l, r))))
      ensures Foot(mem, p, FixHeight(old(PartTree(mem, p, l, r)))) == old(Foot(mem, p, PartTree(mem, p, l, r)))
      ensures mem == old(mem)[p := old(mem)[p].(height := mem[p].height)]
    {
      hide Foot;
      var hl := HeightAt(mem[p].left);
      var hr := HeightAt(mem[p].right);
      ghost var c := mem[p];
      var h := ((if hl > hr then hl else hr) + 1) % 256;
      Join(mem, p, c.key, h, c.left, l, c.right, r);
      FootOf(mem, p, PartTree(mem, p, l, r));
      mem := mem[p := mem[p].(height := h)];
    }

    /** rotateright */
    method RotateNodeRight(p: int, ghost l: Tree, ghost r: Tree) returns (q: int)
      requires Parts(mem, p, l, r) && l.Node?
      modifies `mem
      ensures var t := RotateRight(old(PartTree(mem, p, l, r)));
              Rep(mem, q, t)
              && Foot(mem, q, t) == old(Foot(mem, p, PartTree(mem, p, l, r)))
      ensures Outside(old(mem), mem, old(Foot(mem, p, PartTree(mem, p, l, r)))) && mem.Keys == old(mem).Keys
    {
      hide Foot, FixHeight;
      TwoDeep(mem, p, PartTree(mem, p, l, r));
      q := mem[p].left;
      ghost var below := PartTree(mem, p, l.right, r);
      Join(mem, p, mem[p].key, mem[p].height, mem[q].right, l.right, mem[p].right, r);
      mem := mem[p := mem[p].(left := mem[q].right)];
      ghost var mem1 := mem;
      mem := mem[q := mem[q].(right := p)];
      Frame(mem1, mem, p, below);
      FixNode(p, l.right, r);
      Frame(old(mem), mem, mem[q].left, l.left);
      Join(mem, q, mem[q].key, mem[q].height, mem[q].left, l.left, p, FixHeight(below));
      assert mem == mem[q := mem[q]];
      FixNode(q, l.left, FixHeight(below));
    }

    /** rotateleft */
    method RotateNodeLeft(q: int, ghost l: Tree, ghost r: Tree) returns (p: int)
      requires Parts(mem, q, l, r) && r.Node?
      modifies `mem
      ensures var t := RotateLeft(old(PartTree(mem, q, l, r)));
              Rep(mem, p, t)
              && Foot(mem, p, t) == old(Foot(mem, q, PartTree(mem, q, l, r)))
      ensures Outside(old(mem), mem, old(Foot(mem, q, PartTree(mem, q, l, r)))) && mem.Keys == old(mem).Keys
    {
      hide Foot, FixHeight;
      TwoDeep(mem, q, PartTree(mem, q, l, r));
      p := mem[q].right;
      ghost var below := PartTree(mem, q, l, r.left);
      Join(mem, q, mem[q].key, mem[q].height, mem[q].left, l, mem[p].left, r.left);
      mem := mem[q := mem[q].(right := mem[p].left)];
      ghost var mem1 := mem;
      mem := mem[p := mem[p].(left := q)];
      Frame(mem1, mem, q, below);
      FixNode(q, l, r.left);
      Frame(old(mem), mem, mem[p].right, r.right);
      Join(mem, p, mem[p].key, mem[p].height, q, FixHeight(below), mem[p].right, r.right);
      assert mem == mem[p := mem[p]];
      FixNode(p, FixHeight(below), r.right);
    }

    /** balance, with bfactor written out. */
    method BalanceNode(p: int, ghost l: Tree, ghost r: Tree) returns (q: int)
      requires Parts(mem, p, l, r)
      modifies `mem
      ensures var t := Balance(old(PartTree(mem, p, l, r)));
              Rep(mem, q, t)
              && Foot(mem, q, t) == old(Foot(mem, p, PartTree(mem, p, l, r)))
      ensures Outside(old(mem), mem, old(Foot(mem, p, PartTree(mem, p, l, r)))) && mem.Keys == old(mem).Keys
    {
      hide Foot, FixHeight, RotateLeft, RotateRight, Rep;
      ghost var t := FixHeight(PartTree(mem, p, l, r));
      Rotated(l);
      Rotated(r);
      FixedParts(PartTree(mem, p, l, r));
      FixNode(p, l, r);
      TwoDeep(mem, p, t);
      NodeOf(mem, p, t);
      Heights(mem, p, t);
      var lp, rp := mem[p].left, mem[p].right;
      if HeightAt(rp) - HeightAt(lp) == 2 {
        Heights(mem, rp, r);
        ghost var r' := r;
        if HeightAt(mem[rp].right) - HeightAt(mem[rp].left) < 0 {
          r' := RotateRight(r);
          ghost var mem1 := mem;
          rp := RotateNodeRight(rp, r.left, r.right);
          RightChanged(mem1, mem, p, t, r', rp);
          mem := mem[p := mem[p].(right := rp)];
        }
        q := RotateNodeLeft(p, l, r');
      } else if HeightAt(rp) - HeightAt(lp) == -2 {
        Heights(mem, lp, l);
        ghost var l' := l;
        if HeightAt(mem[lp].right) - HeightAt(mem[lp].left) > 0 {
          l' := RotateLeft(l);
          ghost var mem1 := mem;
          lp := RotateNodeLeft(lp, l.left, l.right);
          LeftChanged(mem1, mem, p, t, l', lp);
          mem := mem[p := mem[p].(left := lp)];
        }
        q := RotateNodeRight(p, l', r);
      } else {
        q := p;
      }
    }

    /** insert */
    method InsertNode(p: int, k: int, ghost t: Tree) returns (q: int)
      requires Rep(mem, p, t) && brk > 0 && forall a :: a in mem ==> a < brk
      modifies `mem, `brk
      ensures Rep(mem, q, Insert(t, k)) && Outside(old(mem), mem, old(Foot(mem, p, t)))
      ensures forall a :: a in Foot(mem, q, Insert(t, k)) && a in old(mem) ==> a in old(Foot(mem, p, t))
      ensures brk > 0 && forall a :: a in mem ==> a < brk
      decreases t
    {
      hide Foot, FixHeight, Balance, Rep;
      FootMapped(mem, p, t);
      if p == 0 {
        q := brk;
        NewNode(mem, q, k);
        mem := mem[q := Cell(k, 1, 0, 0)];
        brk := brk + 1;
        return;
      }
      TwoDeep(mem, p, t);
      NodeOf(mem, p, t);
      ghost var t' := t;
      if k < mem[p].key {
        var lp := InsertNode(mem[p].left, k, t.left);
        t' := t.(left := Insert(t.left, k));
        LeftChanged(old(mem), mem, p, t, t'.left, lp);
        mem := mem[p := mem[p].(left := lp)];
      } else {
        var rp := InsertNode(mem[p].right, k, t.right);
        t' := t.(right := Insert(t.right, k));
        RightChanged(old(mem), mem, p, t, t'.right, rp);
        mem := mem[p := mem[p].(right := rp)];
      }
      q := BalanceNode(p, t'.left, t'.right);
    }

    /** findmin */
    method FindMinNode(p: int, ghost t: Tree) returns (m: int)
      requires Rep(mem, p, t) && t.Node?
      ensures m == MinNode(mem, p, t) && m in mem && mem[m].key == FindMin(t) && m in Foot(mem, p, t)
      decreases t
    {
      FootMapped(mem, mem[p].left, t.left);
      if mem[p].left != 0 {
        m := FindMinNode(mem[p].left, t.left);
      } else {
        m := p;
      }
    }

    /** removemin: the node with the least key is left out, untouched. */
    method RemoveMinNode(p: int, ghost t: Tree) returns (q: int)
      requires Rep(mem, p, t) && t.Node?
      modifies `mem
      ensures Rep(mem, q, RemoveMin(t)) && mem.Keys == old(mem).Keys
      ensures var m := MinNode(old(mem), p, t);
        && Outside(old(mem), mem, old(Foot(mem, p, t)) - {m}) && m in mem && mem[m] == old(mem)[m]
        && Foot(mem, q, RemoveMin(t)) == old(Foot(mem, p, t)) - {m}
      decreases t
    {
      hide Foot, FixHeight, Balance;
      FootMapped(mem, mem[p].left, t.left);
      TwoDeep(mem, p, t);
      MinInFoot(mem, p, t);
      if mem[p].left == 0 {
        NoFoot(mem, mem[p].left, t.left);
        q := mem[p].right;
        return;
      }
      MinInFoot(mem, mem[p].left, t.left);
      var lp := RemoveMinNode(mem[p].left, t.left);
      ghost var t' := t.(left := RemoveMin(t.left));
      LeftChanged(old(mem), mem, p, t, t'.left, lp);
      mem := mem[p := mem[p].(left := lp)];
      q := BalanceNode(p, t'.left, t'.right);
    }

    /** remove */
    method RemoveNode(p: int, k: int, ghost t: Tree) returns (q: int)
      requires Rep(mem, p, t)
      modifies `mem
      ensures Rep(mem, q, Remove(t, k)) && Outside(old(mem), mem, old(Foot(mem, p, t))) && mem.Keys == old(mem).Keys
      ensures forall a :: a in Foot(mem, q, Remove(t, k)) ==> a in old(Foot(mem, p, t))
      decreases t
    {
      hide Foot, FixHeight, Balance, Rep;
      FootMapped(mem, p, t);
      if p == 0 {
        NoFoot(mem, p, t);
        return 0;
      }
      TwoDeep(mem, p, t);
      NodeOf(mem, p, t);
      if k == mem[p].key {
        q := RemoveRoot(p, k, t);
        return;
      }
      ghost var t' := t;
      if k < mem[p].key {
        var lp := RemoveNode(mem[p].left, k, t.left);
        t' := t.(left := Remove(t.left, k));
        LeftChanged(old(mem), mem, p, t, t'.left, lp);
        mem := mem[p := mem[p].(left := lp)];
      } else {
        var rp := RemoveNode(mem[p].right, k, t.right);
        t' := t.(right := Remove(t.right, k));
        RightChanged(old(mem), mem, p, t, t'.right, rp);
        mem := mem[p := mem[p].(right := rp)];
      }
      q := BalanceNode(p, t'.left, t'.right);
    }

    /** The branch of remove that has found the key: the least node of the right side takes p's place. */
    method RemoveRoot(p: int, k: int, ghost t: Tree) returns (q: int)
      requires Rep(mem, p, t) && t.Node? && k == t.key
      modifies `mem
      ensures Rep(mem, q, Remove(t, k)) && Outside(old(mem), mem, old(Foot(mem, p, t))) && mem.Keys == old(mem).Keys
      ensures forall a :: a in Foot(mem, q, Remove(t, k)) ==> a in old(Foot(mem, p, t))
    {
      hide Foot, FixHeight, Balance;
      TwoDeep(mem, p, t);
      FootMapped(mem, mem[p].right, t.right);
      var l, r := mem[p].left, mem[p].right;
      if r == 0 {
        NoFoot(mem, r, t.right);
        return l;
      }
      var min := FindMinNode(r, t.right);
      var rest := RemoveMinNode(r, t.right);
      ghost var mem1 := mem;
      ApartSides(old(mem), p, t);
      FootMapped(old(mem), l, t.left);
      Frame(old(mem), mem, l, t.left);
      Join(mem, min, mem[min].key, mem[min].height, l, t.left, rest, RemoveMin(t.right));
      mem := mem[min := mem[min].(right := rest)];
      mem := mem[min := mem[min].(left := l)];
      assert mem == mem1[min := Cell(mem1[min].key, mem1[min].height, l, rest)];
      HeightUnused(t.left, FindMin(t.right), 0, mem[min].height, RemoveMin(t.right));
      q := BalanceNode(min, t.left, RemoveMin(t.right));
    }

    /** register_object, while the nodes fit an address space. */
    method RegisterObject(p: int)
      requires Valid() && Size(tree) < Pow2(64)
      modifies this
      ensures Valid() && tree == Insert(old(tree), p)
      ensures multiset(Keys(tree)) == multiset(Keys(old(tree))) + multiset{p} && Size(tree) == Size(old(tree)) + 1
    {
      hide Insert, Good, Avl, Ordered, Pow2;
      InsertKeepsAll(tree, p);
      fakeRoots := InsertNode(fakeRoots, p, tree);
      tree := Insert(tree, p);
    }

    /** unregister_object */
    method UnregisterObject(p: int)
      requires Valid()
      modifies this
      ensures Valid() && tree == Remove(old(tree), p)
      ensures multiset(Keys(tree)) == multiset(Keys(old(tree))) - multiset{p}
      ensures Size(tree) == Size(old(tree)) - (if p in Keys(old(tree)) then 1 else 0)
    {
      hide Remove, Good, Avl, Ordered, Pow2;
      RemoveKeepsAll(tree, p);
      fakeRoots := RemoveNode(fakeRoots, p, tree);
      tree := Remove(tree, p);
    }
  }

  lemma FootOf(mem: Cells, p: int, t: Tree)
    requires Rep(mem, p, t) && t.Node?
    ensures Foot(mem, p, t) == {p} + Foot(mem, mem[p].left, t.left) + Foot(mem, mem[p].right, t.right)
  {
  }

  /** The nodes of a tree two levels down are all different. */
  lemma TwoDeep(mem: Cells, p: int, t: Tree)
    requires Rep(mem, p, t) && t.Node?
    ensures p in mem && p != 0
    ensures Foot(mem, p, t) == {p} + Foot(mem, mem[p].left, t.left) + Foot(mem, mem[p].right, t.right)
    ensures t.left.Node? ==> var q := mem[p].left;
      && q in mem && q != 0 && q != p && Rep(mem, mem[q].left, t.left.left) && Rep(mem, mem[q].right, t.left.right)
        && mem[q].key == t.left.key && mem[q].height == t.left.height
      && var a, b, c := Foot(mem, mem[q].left, t.left.left), Foot(mem, mem[q].right, t.left.right),
        Foot(mem, mem[p].right, t.right);
      && a !! b !! c && Foot(mem, q, t.left) == {q} + a + b && p !in a + b + c && q !in a + b + c
    ensures t.right.Node? ==> var q := mem[p].right;
      && q in mem && q != 0 && q != p && Rep(mem, mem[q].left, t.right.left) && Rep(mem, mem[q].right, t.right.right)
        && mem[q].key == t.right.key && mem[q].height == t.right.height
      && var a, b, c := Foot(mem, mem[p].left, t.left), Foot(mem, mem[q].left, t.right.left),
        Foot(mem, mem[q].right, t.right.right);
      && a !! b !! c && Foot(mem, q, t.right) == {q} + b + c && p !in a + b + c && q !in a + b + c
  {
  }

  lemma FixedParts(t: Tree)
    requires t.Node?
    ensures var f := FixHeight(t); f.Node? && f.left == t.left && f.right == t.right && f.key == t.key
  {
  }

  lemma Rotated(t: Tree)
    ensures t.Node? && t.left.Node? ==> RotateRight(t).Node?
    ensures t.Node? && t.right.Node? ==> RotateLeft(t).Node?
  {
  }

  lemma NodeOf(mem: Cells, p: int, t: Tree)
    requires Rep(mem, p, t) && t.Node?
    ensures p in mem && mem[p].key == t.key && mem[p].height == t.height
    ensures Rep(mem, mem[p].left, t.left) && Rep(mem, mem[p].right, t.right)
  {
  }

  /** The stored height of a node is its tree's. */
  lemma Heights(mem: Cells, p: int, t: Tree)
    requires Rep(mem, p, t)
    ensures (if p != 0 && p in mem then mem[p].height else 0) == Height(t)
    ensures t.Node? ==> p in mem && Rep(mem, mem[p].left, t.left) && Rep(mem, mem[p].right, t.right)
    ensures t.Node? ==>
              (if mem[p].left != 0 && mem[p].left in mem then mem[mem[p].left].height else 0) == Height(t.left)
    ensures t.Node? ==>
              (if mem[p].right != 0 && mem[p].right in mem then mem[mem[p].right].height else 0) == Height(t.right)
  {
  }

  /** The right subtree of p has been edited inside its footprint, or has grown by new nodes. */
  lemma RightChanged(mem: Cells, mem': Cells, p: int, t: Tree, r: Tree, rp: int)
    requires Rep(mem, p, t) && t.Node? && Rep(mem', rp, r) && Outside(mem, mem', Foot(mem, mem[p].right, t.right))
    requires forall a :: a in Foot(mem', rp, r) && a in mem ==> a in Foot(mem, mem[p].right, t.right)
    ensures p in mem' && mem'[p] == mem[p]
    ensures var mem2, t2 := mem'[p := mem'[p].(right := rp)], t.(right := r);
      && Rep(mem2, p, t2) && Foot(mem2, p, t2) == {p} + Foot(mem, mem[p].left, t.left) + Foot(mem', rp, r)
  {
    TwoDeep(mem, p, t);
    FootMapped(mem, mem[p].left, t.left);
    var kept, old_, new_ := Foot(mem, mem[p].left, t.left), Foot(mem, mem[p].right, t.right), Foot(mem', rp, r);
    assert kept !! old_ && forall a :: a in kept ==> a in mem;
    forall a | a in kept
      ensures a !in new_
    {
      assert a in mem && a !in old_;
    }
    assert p !in old_;
    Frame(mem, mem', mem[p].left, t.left);
    Join(mem', p, t.key, t.height, mem[p].left, t.left, rp, r);
  }

  lemma LeftChanged(mem: Cells, mem': Cells, p: int, t: Tree, l: Tree, lp: int)
    requires Rep(mem, p, t) && t.Node? && Rep(mem', lp, l) && Outside(mem, mem', Foot(mem, mem[p].left, t.left))
    requires forall a :: a in Foot(mem', lp, l) && a in mem ==> a in Foot(mem, mem[p].left, t.left)
    ensures p in mem' && mem'[p] == mem[p]
    ensures var mem2, t2 := mem'[p := mem'[p].(left := lp)], t.(left := l);
      && Rep(mem2, p, t2) && Foot(mem2, p, t2) == {p} + Foot(mem', lp, l) + Foot(mem, mem[p].right, t.right)
  {
    TwoDeep(mem, p, t);
    FootMapped(mem, mem[p].right, t.right);
    var kept, old_, new_ := Foot(mem, mem[p].right, t.right), Foot(mem, mem[p].left, t.left), Foot(mem', lp, l);
    assert kept !! old_ && forall a :: a in kept ==> a in mem;
    forall a | a in kept
      ensures a !in new_
    {
      assert a in mem && a !in old_;
    }
    assert p !in old_;
    Frame(mem, mem', mem[p].right, t.right);
    Join(mem', p, t.key, t.height, lp, l, mem[p].right, t.right);
  }

  lemma NewNode(mem: Cells, q: int, k: int)
    requires q != 0 && q !in mem
    ensures Rep(mem[q := Cell(k, 1, 0, 0)], q, Node(Leaf, k, 1, Leaf))
    ensures Foot(mem[q := Cell(k, 1, 0, 0)], q, Node(Leaf, k, 1, Leaf)) == {q}
  {
  }

  lemma NoFoot(mem: Cells, p: int, t: Tree)
    requires t.Leaf?
    ensures Foot(mem, p, t) == {}
  {
  }

  ghost function MinNode(mem: Cells, p: int, t: Tree): int
    decreases t
  {
    if t.Node? && p in mem && t.left.Node? then MinNode(mem, mem[p].left, t.left) else p
  }

  lemma {:induction false} MinInFoot(mem: Cells, p: int, t: Tree)
    requires Rep(mem, p, t) && t.Node?
    ensures MinNode(mem, p, t) in Foot(mem, p, t) && MinNode(mem, p, t) in mem && MinNode(mem, p, t) != 0
    ensures MinNode(mem, p, t) == if t.left.Node? then MinNode(mem, mem[p].left, t.left) else p
    decreases t
  {
    if t.left.Node? { MinInFoot(mem, mem[p].left, t.left); }
  }

  lemma ApartSides(mem: Cells, p: int, t: Tree)
    requires Rep(mem, p, t) && t.Node?
    ensures Foot(mem, mem[p].left, t.left) !! Foot(mem, mem[p].right, t.right)
  {
  }

  /** balance fixes the height first, so the one it finds does not matter. */
  lemma HeightUnused(l: Tree, k: int, h: nat, h': nat, r: Tree)
    ensures Balance(Node(l, k, h, r)) == Balance(Node(l, k, h', r))
  {
  }
}
