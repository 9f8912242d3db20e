/** How shells come about: the first gc_new of a class runs its constructor with recording on, every
    gc_ptr built inside the object leaves its offset in thread-local state, and create_meta turns
    the offsets into the shell. Constructors call gc_new themselves, for any class and to any depth. */
module GcNews {
  import opened Lists
  import opened Objects

  /** Where a gc_ptr is built: at a byte offset of the object under construction, or outside the
      managed heap. */
  datatype Place = Inside(offset: nat) | Outside

  /** One run of a constructor, as the gc_ptr constructions and gc_new calls it makes, in order. */
  datatype Body = Body(actions: seq<Action>)

  /** A gc_ptr built by the move constructor or by another one; or a gc_new of |elems| objects,
      whose result is built at `into`. */
  datatype Action = Ptr(at: Place, moved: bool) | New(cls: int, elems: seq<Body>, into: Place)

  datatype Meta = Meta(shell: Shell, count: int)

  predicate MovedField(a: Action) { a.Ptr? && a.moved }

  /** The gc_ptr field an action builds, if it builds one. */
  function Field(a: Action): (r: seq<int>)
    ensures |r| <= 1
  {
    match if a.Ptr? then a.at else a.into
    case Inside(o) => [o]
    case Outside => []
  }

  /** The offset a constructor's action leaves behind: none if the pointer is move-constructed. */
  function Offset(a: Action): seq<int> { if MovedField(a) then [] else Field(a) }

  function Offsets(actions: seq<Action>): seq<int> {
    if actions == [] then [] else Offsets(actions[..|actions| - 1]) + Offset(actions[|actions| - 1])
  }

  /** All gc_ptr fields a constructor builds, in construction order. */
  function Fields(actions: seq<Action>): seq<int> {
    if actions == [] then [] else Fields(actions[..|actions| - 1]) + Field(actions[|actions| - 1])
  }

  // ---------------------------------------------------------------- what constructors leave behind

  /** The class meta holders, and the metas of the blocks in the order in which gc_new fills them in. */
  datatype Made = Made(holders: map<int, Shell>, metas: seq<Meta>)

  /** The block carries the shell of its class. */
  function AfterAction(sizeOf: int -> nat, a: Action, s: Made): Made
    decreases a, 1
  {
    if a.Ptr? then s
    else
      var s1 := Shelled(sizeOf, a, s);
      if a.cls in s1.holders then Made(s1.holders, s1.metas + [Meta(s1.holders[a.cls], |a.elems|)]) else s1
  }

  /** A class that has no shell when its gc_new begins gets the one its first element records, whatever
      was made for it in between. */
  function Shelled(sizeOf: int -> nat, a: Action, s: Made): Made
    requires a.New?
    decreases a, 0, |a.elems| + 1
  {
    var s1 := AfterElems(sizeOf, a, |a.elems|, s);
    if a.cls in s.holders || a.elems == [] then s1
    else s1.(holders := s1.holders[a.cls := Shell(sizeOf(a.cls), Offsets(a.elems[0].actions))])
  }

  /** The constructors of the first n elements. */
  function AfterElems(sizeOf: int -> nat, a: Action, n: nat, s: Made): Made
    requires a.New? && n <= |a.elems|
    decreases a, 0, n
  {
    if n == 0 then s
    else AfterBody(sizeOf, a.elems[n - 1], |a.elems[n - 1].actions|, AfterElems(sizeOf, a, n - 1, s))
  }

  function AfterBody(sizeOf: int -> nat, b: Body, n: nat, s: Made): Made
    requires n <= |b.actions|
    decreases b, n
  {
    if n == 0 then s else AfterAction(sizeOf, b.actions[n - 1], AfterBody(sizeOf, b, n - 1, s))
  }

  /** A gc_new of no objects occurs only for classes that have a shell. */
  ghost predicate Known(known: set<int>, a: Action)
    decreases a, 0
  {
    a.New? ==> (a.elems == [] ==> a.cls in known) && forall e :: e in a.elems ==> KnownBody(known, e)
  }

  ghost predicate KnownBody(known: set<int>, b: Body)
    decreases b, 1
  {
    forall a :: a in b.actions ==> Known(known, a)
  }

  lemma ElementKnown(known: set<int>, a: Action, i: nat)
    requires a.New? && Known(known, a) && i < |a.elems|
    ensures KnownBody(known, a.elems[i])
  {
  }

  lemma NoElements(known: set<int>, a: Action)
    requires a.New? && Known(known, a) && a.cls !in known
    ensures a.elems != []
  {
  }

  lemma ActionKnown(known: set<int>, b: Body, i: nat)
    requires KnownBody(known, b) && i < |b.actions|
    ensures Known(known, b.actions[i])
  {
  }

  lemma BodyStep(sizeOf: int -> nat, b: Body, i: nat, s: Made)
    requires i < |b.actions|
    ensures AfterBody(sizeOf, b, 0, s) == s
    ensures AfterBody(sizeOf, b, i + 1, s) == AfterAction(sizeOf, b.actions[i], AfterBody(sizeOf, b, i, s))
  {
  }

  lemma BodyStart(sizeOf: int -> nat, b: Body, s: Made)
    ensures AfterBody(sizeOf, b, 0, s) == s
  {
  }

  lemma ElemsStart(sizeOf: int -> nat, a: Action, s: Made)
    requires a.New?
    ensures AfterElems(sizeOf, a, 0, s) == s
  {
  }

  lemma ElemsStep(sizeOf: int -> nat, a: Action, i: nat, s: Made)
    requires a.New? && i < |a.elems|
    ensures AfterElems(sizeOf, a, i + 1, s)
         == AfterBody(sizeOf, a.elems[i], |a.elems[i].actions|, AfterElems(sizeOf, a, i, s))
  {
  }

  lemma NoOffsets(actions: seq<Action>)
    ensures Offsets(actions[..0]) == []
  {
  }

  lemma OffsetsStep(actions: seq<Action>, i: nat)
    requires i < |actions|
    ensures Offsets(actions[..i + 1]) == Offsets(actions[..i]) + Offset(actions[i])
  {
    assert actions[..i + 1][..i] == actions[..i];
  }

  /** Nothing made before is lost or changed: shells stay, and metas are only added. */
  ghost predicate Kept(s: Made, s': Made) {
    s.metas <= s'.metas && forall c :: c in s.holders ==> c in s'.holders && s'.holders[c] == s.holders[c]
  }

  lemma KeptOn(s: Made, s1: Made, s2: Made)
    requires Kept(s, s1) && Kept(s1, s2)
    ensures Kept(s, s2)
  {
  }

  lemma {:induction false} ActionKeeps(sizeOf: int -> nat, a: Action, s: Made)
    ensures Kept(s, AfterAction(sizeOf, a, s))
    decreases a, 0
  {
    if a.New? {
      ElemsKeep(sizeOf, a, |a.elems|, s);
      hide AfterElems, Offsets;
    }
  }

  lemma FirstShell(sizeOf: int -> nat, known: set<int>, a: Action, s: Made)
    requires a.New? && Known(known, a) && known <= s.holders.Keys
    ensures a.cls !in s.holders ==>
      && a.elems != []
      && var h := AfterAction(sizeOf, a, s).holders;
        a.cls in h
        && h[a.cls] == Shell(sizeOf(a.cls), Offsets(a.elems[0].actions))
    ensures forall c :: c in s.holders ==>
            c in AfterAction(sizeOf, a, s).holders
            && AfterAction(sizeOf, a, s).holders[c] == s.holders[c]
  {
    ActionKeeps(sizeOf, a, s);
  }

  lemma {:induction false} ElemsKeep(sizeOf: int -> nat, a: Action, n: nat, s: Made)
    requires a.New? && n <= |a.elems|
    ensures Kept(s, AfterElems(sizeOf, a, n, s))
    decreases a, 0, n
  {
    hide AfterBody, Kept;
    if n == 0 {
      KeptSame(s);
    } else {
      var e, s1 := a.elems[n - 1], AfterElems(sizeOf, a, n - 1, s);
      ElemsKeep(sizeOf, a, n - 1, s);
      BodyKeeps(sizeOf, e, |e.actions|, s1);
      KeptOn(s, s1, AfterBody(sizeOf, e, |e.actions|, s1));
    }
  }

  lemma {:induction false} BodyKeeps(sizeOf: int -> nat, b: Body, n: nat, s: Made)
    requires n <= |b.actions|
    ensures Kept(s, AfterBody(sizeOf, b, n, s))
    decreases b, n
  {
    hide AfterAction, Kept;
    if n == 0 {
      KeptSame(s);
    } else {
      var a, s1 := b.actions[n - 1], AfterBody(sizeOf, b, n - 1, s);
      BodyKeeps(sizeOf, b, n - 1, s);
      ActionKeeps(sizeOf, a, s1);
      KeptOn(s, s1, AfterAction(sizeOf, a, s1));
    }
  }

  lemma KeptSame(s: Made)
    ensures Kept(s, s)
  {
  }

  // ---------------------------------------------------------------- classes with one layout

  type Layout = map<int, Shell>         // class -> its size and the offsets of its own gc_ptr fields

  /** Every object constructed inside, at any depth, records its pointers where its class has them. */
  ghost predicate FitsBody(layout: Layout, b: Body)
    decreases b, 1
  {
    forall a :: a in b.actions ==> Fits(layout, a)
  }

  ghost predicate Fits(layout: Layout, a: Action)
    decreases a, 0
  {
    a.New? ==>
      && a.cls in layout
      && forall e :: e in a.elems ==> Offsets(e.actions) == layout[a.cls].offsets && FitsBody(layout, e)
  }

  /** The class of a block and the number of its objects. */
  datatype Block = Block(cls: int, count: nat)

  /** The blocks that an action makes, in the order in which gc_new fills in their metas: those made by the
      constructors of its elements, and last its own. */
  function BlocksOf(a: Action): seq<Block>
    decreases a, 1
  {
    if a.Ptr? then [] else ElemBlocks(a, |a.elems|) + [Block(a.cls, |a.elems|)]
  }

  function ElemBlocks(a: Action, n: nat): seq<Block>
    requires a.New? && n <= |a.elems|
    decreases a, 0, n
  {
    if n == 0 then [] else ElemBlocks(a, n - 1) + BodyBlocks(a.elems[n - 1], |a.elems[n - 1].actions|)
  }

  function BodyBlocks(b: Body, n: nat): seq<Block>
    requires n <= |b.actions|
    decreases b, n
  {
    if n == 0 then [] else BodyBlocks(b, n - 1) + BlocksOf(b.actions[n - 1])
  }

  /** Every shell is the one its class should have: in the holders, and in the metas of the blocks bs. */
  ghost predicate ShellsOk(sizeOf: int -> nat, layout: Layout, bs: seq<Block>, s: Made) {
    && (forall c :: c in layout ==> layout[c].size == sizeOf(c))
    && (forall c :: c in s.holders ==> c in layout && s.holders[c] == layout[c])
    && |s.metas| == |bs|
    && forall i :: 0 <= i < |bs| ==> bs[i].cls in layout && s.metas[i] == Meta(layout[bs[i].cls], bs[i].count)
  }

  /** If all objects of a class record their pointers in the same places, every block made, and every
      holder, gets the shell of its own class, in whatever order and to whatever depth classes are
      constructed for the first time. */
  lemma {:induction false} ShellsRight(sizeOf: int -> nat, layout: Layout, known: set<int>, a: Action, bs: seq<Block>,
                                       s: Made)
    requires ShellsOk(sizeOf, layout, bs, s) && Fits(layout, a) && Known(known, a) && known <= s.holders.Keys
    ensures ShellsOk(sizeOf, layout, bs + BlocksOf(a), AfterAction(sizeOf, a, s))
    decreases a, 0
  {
    if a.Ptr? {
      assert bs + [] == bs;
    } else {
      var n := |a.elems|;
      ElemsRight(sizeOf, layout, known, a, n, bs, s);
      ElemsKeep(sizeOf, a, n, s);
      if a.cls !in known { NoElements(known, a); }
      if a.elems != [] {
        var e := a.elems[0];
        assert e in a.elems;
        assert Offsets(e.actions) == layout[a.cls].offsets;
      }
      assert bs + BlocksOf(a) == bs + ElemBlocks(a, n) + [Block(a.cls, n)];
      hide AfterElems, Offsets, Fits, ElemBlocks, Known;
    }
  }

  lemma ElementFits(layout: Layout, a: Action, i: nat)
    requires a.New? && Fits(layout, a) && i < |a.elems|
    ensures FitsBody(layout, a.elems[i])
  {
  }

  lemma KeptKeys(known: set<int>, s: Made, s': Made)
    requires Kept(s, s') && known <= s.holders.Keys
    ensures known <= s'.holders.Keys
  {
    forall c | c in known
      ensures c in s'.holders
    {
      assert c in s.holders.Keys && c in s.holders;
    }
  }

  lemma {:induction false} ElemsRight(sizeOf: int -> nat, layout: Layout, known: set<int>, a: Action, n: nat,
                                      bs: seq<Block>, s: Made)
    requires a.New? && n <= |a.elems| && ShellsOk(sizeOf, layout, bs, s) && Fits(layout, a)
    requires Known(known, a) && known <= s.holders.Keys
    ensures ShellsOk(sizeOf, layout, bs + ElemBlocks(a, n), AfterElems(sizeOf, a, n, s))
    decreases a, 0, n
  {
    hide *;
    if n == 0 {
      ElemsStart(sizeOf, a, s);
      NoBlocks(a);
      assert bs + [] == bs;
    } else {
      var e, s1, bs1 := a.elems[n - 1], AfterElems(sizeOf, a, n - 1, s), bs + ElemBlocks(a, n - 1);
      ElementFits(layout, a, n - 1);
      ElementKnown(known, a, n - 1);
      ElemsKeep(sizeOf, a, n - 1, s);
      KeptKeys(known, s, s1);
      ElemsRight(sizeOf, layout, known, a, n - 1, bs, s);
      BodyRight(sizeOf, layout, known, e, |e.actions|, bs1, s1);
      ElemsStep(sizeOf, a, n - 1, s);
      ElemBlocksStep(a, n - 1);
      assert bs + ElemBlocks(a, n) == bs1 + BodyBlocks(e, |e.actions|);
    }
  }

  lemma NoBlocks(a: Action)
    requires a.New?
    ensures ElemBlocks(a, 0) == []
  {
  }

  lemma ElemBlocksStep(a: Action, i: nat)
    requires a.New? && i < |a.elems|
    ensures ElemBlocks(a, i + 1) == ElemBlocks(a, i) + BodyBlocks(a.elems[i], |a.elems[i].actions|)
  {
  }

  lemma BodyBlocksStep(b: Body, i: nat)
    requires i < |b.actions|
    ensures BodyBlocks(b, i + 1) == BodyBlocks(b, i) + BlocksOf(b.actions[i])
  {
  }

  lemma NoBodyBlocks(b: Body)
    ensures BodyBlocks(b, 0) == []
  {
  }

  lemma ActionFits(layout: Layout, b: Body, i: nat)
    requires FitsBody(layout, b) && i < |b.actions|
    ensures Fits(layout, b.actions[i])
  {
  }

  lemma {:induction false} BodyRight(sizeOf: int -> nat, layout: Layout, known: set<int>, b: Body, n: nat,
                                     bs: seq<Block>, s: Made)
    requires n <= |b.actions| && ShellsOk(sizeOf, layout, bs, s) && FitsBody(layout, b)
    requires KnownBody(known, b) && known <= s.holders.Keys
    ensures ShellsOk(sizeOf, layout, bs + BodyBlocks(b, n), AfterBody(sizeOf, b, n, s))
    decreases b, n
  {
    hide *;
    if n == 0 {
      BodyStart(sizeOf, b, s);
      NoBodyBlocks(b);
      assert bs + [] == bs;
    } else {
      var a, s1, bs1 := b.actions[n - 1], AfterBody(sizeOf, b, n - 1, s), bs + BodyBlocks(b, n - 1);
      ActionFits(layout, b, n - 1);
      ActionKnown(known, b, n - 1);
      BodyKeeps(sizeOf, b, n - 1, s);
      KeptKeys(known, s, s1);
      BodyRight(sizeOf, layout, known, b, n - 1, bs, s);
      ShellsRight(sizeOf, layout, known, a, bs1, s1);
      BodyStep(sizeOf, b, n - 1, s);
      BodyBlocksStep(b, n - 1);
      assert bs + BodyBlocks(b, n) == bs1 + BlocksOf(a);
    }
  }

  // ---------------------------------------------------------------- pointers built by move

  /** Every object constructed inside, at any depth, builds its pointers where its class has them,
      recorded or not. */
  ghost predicate BuiltBody(layout: Layout, b: Body)
    decreases b, 1
  {
    forall a :: a in b.actions ==> Built(layout, a)
  }

  ghost predicate Built(layout: Layout, a: Action)
    decreases a, 0
  {
    a.New? ==>
      && a.cls in layout
      && forall e :: e in a.elems ==> Fields(e.actions) == layout[a.cls].offsets && BuiltBody(layout, e)
  }

  /** A constructor builds a field by move. */
  predicate MovesField(b: Body) { exists a :: a in b.actions && MovedField(a) && Field(a) != [] }

  /** No constructor run inside, at any depth, builds a field by move. */
  ghost predicate NoMovesBody(b: Body)
    decreases b, 1
  {
    forall a :: a in b.actions ==> NoMoves(a)
  }

  ghost predicate NoMoves(a: Action)
    decreases a, 0
  {
    a.New? ==> forall e :: e in a.elems ==> !MovesField(e) && NoMovesBody(e)
  }

  /** What objects record is what they build, exactly if they build no field by move. */
  lemma {:induction false} FitsExactly(layout: Layout, a: Action)
    requires Built(layout, a)
    ensures Fits(layout, a) <==> NoMoves(a)
    decreases a, 0
  {
    if a.New? {
      forall e | e in a.elems
        ensures Offsets(e.actions) == layout[a.cls].offsets <==> !MovesField(e)
        ensures FitsBody(layout, e) <==> NoMovesBody(e)
      {
        MovedFieldsMissing(e.actions);
        FitsBodyExactly(layout, e);
      }
      hide Offsets, FitsBody, NoMovesBody, MovesField;
    }
  }

  lemma {:induction false} FitsBodyExactly(layout: Layout, b: Body)
    requires BuiltBody(layout, b)
    ensures FitsBody(layout, b) <==> NoMovesBody(b)
    decreases b, 1
  {
    forall a | a in b.actions
      ensures Fits(layout, a) <==> NoMoves(a)
    {
      FitsExactly(layout, a);
    }
    hide Fits, NoMoves;
  }

  /** A class seen for the first time gets the shell it should have if and only if its first object builds no
      field by move. */
  lemma FirstShellExactly(sizeOf: int -> nat, layout: Layout, known: set<int>, a: Action, s: Made)
    requires a.New? && Built(layout, a) && Known(known, a) && known <= s.holders.Keys && a.cls !in s.holders
    requires layout[a.cls].size == sizeOf(a.cls)
    ensures a.elems != [] && a.cls in AfterAction(sizeOf, a, s).holders
    ensures AfterAction(sizeOf, a, s).holders[a.cls] == layout[a.cls] <==> !MovesField(a.elems[0])
  {
    FirstShell(sizeOf, known, a, s);
    var e := a.elems[0];
    assert e in a.elems;
    MovedFieldsMissing(e.actions);
    hide AfterAction, Offsets;
  }

  /** size_t subtraction */
  function Minus(a: int, b: int): int { if a >= b then a - b else a - b + 0x1_0000_0000_0000_0000 }

  /** It is subtraction modulo 2^64. */
  lemma MinusWraps(a: int, b: int)
    requires 0 <= a < 0x1_0000_0000_0000_0000 && 0 <= b < 0x1_0000_0000_0000_0000
    ensures 0 <= Minus(a, b) < 0x1_0000_0000_0000_0000 && (Minus(a, b) + b - a) % 0x1_0000_0000_0000_0000 == 0
  {
  }

  // ---------------------------------------------------------------- gc_new

  /** The bytes of a block's objects. */
  function Extent(m: Meta): int { m.shell.size * m.count }

  /** No two blocks overlap: each object row begins behind its meta, and ends before the next block. */
  ghost predicate Spaced(objects: map<int, Meta>, brk: int) {
    && (forall r :: r in objects ==> META < r <= r + Extent(objects[r]) < brk)
    && forall r, q :: r in objects && q in objects && r < q ==> r + Extent(objects[r]) < q - META
  }

  /** Objects laid end to end from p. */
  ghost predicate EndToEnd(at: seq<int>, p: int, size: int) {
    (at != [] ==> at[0] == p) && forall i :: 0 < i < |at| ==> at[i] == at[i - 1] + size
  }

  /** The tlvars of one thread, the class meta holders, and what gc_new leaves in memory. */
  class Constructing {
    const sizeOf: int -> nat            // class -> sizeof
    var offsets: seq<int>
    var newActive: bool
    var noActive: bool
    var nestingLevel: int
    var current: int                    // current_pointer_to_object
    var holders: map<int, Shell>        // class -> what its clMeta points to
    var objects: map<int, Meta>         // address of the first object of a block -> its base_meta
    ghost var order: seq<int>           // these addresses, in the order in which the metas were filled in
    var roots: seq<int>                 // registered stack roots
    var brk: int                        // blocks lie below
    var safepoints: nat                 // how often gc_new has taken a safepoint
    var collections: nat                // how often gc has not refused

    constructor (sizeOf: int -> nat)
      ensures Valid() && this.sizeOf == sizeOf && offsets == [] && !newActive && nestingLevel == 0
      ensures !noActive && current == 0 && roots == []
      ensures Now() == Made(map[], []) && safepoints == 0 && collections == 0
    {
      this.sizeOf := sizeOf;
      offsets, newActive, noActive, nestingLevel, current := [], false, false, 0, 0;
      holders, objects, order, roots, brk := map[], map[], [], [], BLOCK;
      safepoints, collections := 0, 0;
    }

    ghost predicate Valid()
      reads `holders, `objects, `order, `brk
    {
      && 0 < brk && NoDup(order) && objects.Keys == Elems(order) && Spaced(objects, brk)
      && forall c :: c in holders ==> holders[c].size == sizeOf(c)
    }

    ghost function Now(): Made
      reads `holders, `objects, `order
    {
      Made(holders, Metas(objects, order))
    }

    twostate predicate Grown()
      reads `objects, `order, `brk
    {
      Grew(old(objects), old(order), old(brk), objects, order, brk)
    }

    /** While a constructor runs on the object at base: its offsets are either not wanted, or taken
        from base. */
    ghost predicate Recording(base: int)
      reads `newActive, `noActive, `current
    {
      newActive && base > 0 && (noActive || current == base)
    }

    /** The gc_ptr constructors: on the stack the pointer is registered as a root; in the heap its
        offset is recorded if somebody wants it. The move constructor does neither. */
    method MakePtr(self: int, inHeap: bool, moved: bool)
      requires newActive && inHeap && !noActive && !moved ==> current != 0
      modifies `offsets, `roots
      ensures offsets == if !moved && newActive && inHeap && !noActive then old(offsets) + [Minus(self, current)]
              else old(offsets)
      ensures roots == if moved || newActive then old(roots) else [self] + old(roots)
    {
      if moved {
        return;
      }
      if !newActive {
        roots := [self] + roots;
      } else if inHeap {
        if noActive {
          return;
        }
        offsets := offsets + [Minus(self, current)];
      }
    }

    /** The test at the start of gc: it does nothing inside a constructor. */
    method Gc() returns (started: bool)
      requires nestingLevel >= 0
      modifies `collections
      ensures started <==> nestingLevel == 0
      ensures collections == old(collections) + (if started then 1 else 0)
    {
      if nestingLevel != 0 {
        return false;
      }
      collections := collections + 1;
      return true;
    }

    /** A constructor on the object at base. It runs at a raised nesting level, so that nothing it calls takes
        a safepoint or collects. */
    method Construct(b: Body, base: int, ghost known: set<int>)
      requires nestingLevel > 0
      requires Valid() && Recording(base) && KnownBody(known, b) && known <= holders.Keys
      modifies this
      ensures Valid() && Now() == AfterBody(sizeOf, b, |b.actions|, old(Now())) && Grown() && known <= holders.Keys
      ensures unchanged(`newActive, `noActive, `nestingLevel, `current, `roots, `safepoints, `collections)
      ensures offsets == if noActive then old(offsets) else old(offsets) + Offsets(b.actions)
      decreases b, 0
    {
      hide AfterBody, AfterAction, Known, KnownBody, Offsets, Offset, NoDup, Elems, Grew, Constructing.Valid, Metas;
      var i := 0;
      GrewNone(objects, order, brk);
      BodyStart(sizeOf, b, Now());
      NoOffsets(b.actions);
      while i < |b.actions|
        invariant 0 <= i <= |b.actions|
        invariant Valid() && Now() == AfterBody(sizeOf, b, i, old(Now())) && Grown() && known <= holders.Keys
        invariant unchanged(`newActive, `noActive, `nestingLevel, `current, `roots, `safepoints, `collections)
        invariant offsets == if noActive then old(offsets) else old(offsets) + Offsets(b.actions[..i])
      {
        OffsetsStep(b.actions, i);
        ActionKnown(known, b, i);
        BodyStep(sizeOf, b, i, old(Now()));
        ghost var o, l, k := objects, order, brk;
        Act(b.actions[i], base, known);
        GrewMore(old(objects), old(order), old(brk), o, l, k, objects, order, brk);
        i := i + 1;
      }
      assert b.actions[..i] == b.actions;
    }

    /** One action of a constructor on the object at base. */
    method Act(a: Action, base: int, ghost known: set<int>)
      requires nestingLevel > 0
      requires Valid() && Recording(base) && Known(known, a) && known <= holders.Keys
      modifies this
      ensures Valid() && Now() == AfterAction(sizeOf, a, old(Now())) && Grown() && known <= holders.Keys
      ensures unchanged(`newActive, `noActive, `nestingLevel, `current, `roots, `safepoints, `collections)
      ensures offsets == if noActive then old(offsets) else old(offsets) + Offset(a)
      decreases a, 2
    {
      hide AfterElems, Known, NoDup, Elems, Grew, Constructing.Valid, Metas;
      GrewNone(objects, order, brk);
      var at := if a.Ptr? then a.at else a.into;
      var self := if at.Inside? then base + at.offset else 0;
      match a {
        case Ptr(_, moved) =>
          MakePtr(self, at.Inside?, moved);
        case New(_, _, _) =>
          hide AfterAction;
          var r := GcNew(a, self, at.Inside?, known);
      }
    }

    /** gc_new<T>(count), with its result built at self. Whatever the constructors did in between,
        the thread-local state is as before, but for the result's own offset; the block carries
        the shell of its class, which a class seen for the first time gets from its first element. */
    method GcNew(a: Action, self: int, inHeap: bool, ghost known: set<int>) returns (r: int)
      requires nestingLevel >= 0
      requires a.New? && Valid() && Known(known, a) && known <= holders.Keys
      requires newActive && inHeap && !noActive ==> current != 0
      modifies this
      ensures Valid() && Now() == AfterAction(sizeOf, a, old(Now())) && Grown() && known <= holders.Keys
      ensures unchanged(`newActive, `noActive, `nestingLevel, `current)
      ensures offsets == if newActive && inHeap && !noActive then old(offsets) + [Minus(self, current)]
              else old(offsets)
      ensures roots == if newActive then old(roots) else [self] + old(roots)
      ensures a.cls in holders && r !in old(objects) && r in objects && objects[r] == Meta(holders[a.cls], |a.elems|)
      ensures a.cls !in old(holders) ==>
              a.elems != []
              && holders[a.cls] == Shell(sizeOf(a.cls), Offsets(a.elems[0].actions))
      ensures forall c :: c in old(holders) ==> c in holders && holders[c] == old(holders)[c]
      ensures safepoints == old(safepoints) + (if nestingLevel == 0 then 1 else 0)
      ensures nestingLevel > 0 ==> unchanged(`collections)
      decreases a, 1
    {
      hide AfterAction, Known, NoDup, Elems, Grew, Constructing.Valid, Metas, Offsets;
      if nestingLevel == 0 {
        safepoints := safepoints + 1;
      }
      r := SaveAndRestore(a, known);
      MakePtr(self, inHeap, false);
    }

    /** gc_new up to the result: what it saves is restored. */
    method SaveAndRestore(a: Action, ghost known: set<int>) returns (r: int)
      requires nestingLevel >= 0
      requires a.New? && Valid() && Known(known, a) && known <= holders.Keys
      modifies this
      ensures Valid() && Now() == AfterAction(sizeOf, a, old(Now())) && Grown() && known <= holders.Keys
      ensures unchanged(`offsets, `newActive, `noActive, `nestingLevel, `current, `roots)
      ensures a.cls in holders && r !in old(objects) && r in objects && objects[r] == Meta(holders[a.cls], |a.elems|)
      ensures a.cls !in old(holders) ==>
              a.elems != []
              && holders[a.cls] == Shell(sizeOf(a.cls), Offsets(a.elems[0].actions))
      ensures forall c :: c in old(holders) ==> c in holders && holders[c] == old(holders)[c]
      ensures unchanged(`safepoints) && (nestingLevel > 0 ==> unchanged(`collections))
      decreases a, 0, 6
    {
      hide AfterAction, Known, NoDup, Elems, Grew, Constructing.Valid, Metas, Offsets;
      var found := a.cls in holders;
      var oldNewActive := newActive;
      newActive := true;
      var oldNoActive := noActive;
      noActive := found;
      r := NewBlock(a, found, known);
      newActive := oldNewActive;
      nestingLevel := nestingLevel - 1;
      noActive := oldNoActive;
    }

    /** The middle of gc_new: the block is allocated, its objects are constructed one level deeper,
        and its base_meta is filled in. */
    method NewBlock(a: Action, found: bool, ghost known: set<int>) returns (r: int)
      requires nestingLevel >= 0
      requires a.New? && Valid() && Known(known, a) && known <= holders.Keys && newActive
               && noActive == found == (a.cls in holders)
      modifies this
      ensures Valid() && Grown() && Now() == AfterAction(sizeOf, a, old(Now())) && known <= holders.Keys
      ensures unchanged(`offsets, `newActive, `current, `roots) && nestingLevel == old(nestingLevel) + 1
      ensures a.cls in holders && r !in old(objects) && r in objects && objects[r] == Meta(holders[a.cls], |a.elems|)
      ensures a.cls !in old(holders) ==>
              a.elems != []
              && holders[a.cls] == Shell(sizeOf(a.cls), Offsets(a.elems[0].actions))
      ensures forall c :: c in old(holders) ==> c in holders && holders[c] == old(holders)[c]
      ensures unchanged(`safepoints) && (old(nestingLevel) > 0 ==> unchanged(`collections))
      decreases a, 0, 5
    {
      hide Known, Shelled, NoDup, Elems, Grew, Offsets, Spaced, Extent, EndToEnd;
      FirstShell(sizeOf, known, a, Now());
      var count := |a.elems|;
      var res := Allocate(sizeOf(a.cls), count);
      nestingLevel := nestingLevel + 1;
      ghost var b, s := brk, Now();
      ghost var at := ConstructObjects(a, res + META, found, known);
      r := res + META;
      ExtentOf(sizeOf(a.cls), count, Meta(holders[a.cls], count));
      AddedBlock(old(objects), old(order), old(brk), b, objects, order, brk, r, Meta(holders[a.cls], count));
      ghost var objects1, order1 := objects, order;
      objects := objects[r := Meta(holders[a.cls], count)];
      order := order + [r];
      MetaAdded(objects1, objects, order1, r);
    }

    /** The constructor calls of gc_new. */
    method ConstructObjects(a: Action, p: int, found: bool, ghost known: set<int>) returns (ghost at: seq<int>)
      requires nestingLevel > 0
      requires a.New? && Valid() && Known(known, a) && known <= holders.Keys && p > 0
      requires newActive && noActive == found == (a.cls in holders)
      modifies this
      ensures Valid() && Grown() && Now() == Shelled(sizeOf, a, old(Now())) && known <= holders.Keys && a.cls in holders
      ensures unchanged(`offsets, `newActive, `nestingLevel, `current, `roots, `safepoints, `collections)
      ensures |at| == |a.elems| && EndToEnd(at, p, sizeOf(a.cls))
      decreases a, 0, 4
    {
      hide AfterElems, Known, NoDup, Elems, Grew, Constructing.Valid, Metas, Offsets;
      ElemsStart(sizeOf, a, Now());
      if found {
        ElemsKeep(sizeOf, a, |a.elems|, Now());
        at := ConstructRest(a, 0, p, known, Now());
      } else {
        NoElements(known, a);
        at := Discover(a, p, known);
      }
    }

    /** my_malloc, as far as it matters here: it may call gc, and returns a block nobody has, with room for
        the meta and the objects. */
    method Allocate(size: nat, count: nat) returns (res: int)
      requires Valid() && nestingLevel >= 0
      modifies `brk, `collections
      ensures Valid() && res == old(brk) && brk == res + META + Extent(Meta(Shell(size, []), count)) + BLOCK
      ensures nestingLevel > 0 ==> unchanged(`collections)
    {
      var full: bool := *;
      if full {
        var started := Gc();
      }
      res := brk;
      brk := brk + META + size * count + BLOCK;
    }

    /** The elements from the given one on, without recording. */
    method ConstructRest(a: Action, from: nat, p: int, ghost known: set<int>, ghost s: Made)
      returns (ghost at: seq<int>)
      requires nestingLevel > 0
      requires a.New? && Valid() && Known(known, a) && known <= holders.Keys && newActive && noActive
               && from <= |a.elems| && p > 0
      requires Now() == AfterElems(sizeOf, a, from, s)
      modifies this
      ensures Valid() && Grown() && Now() == AfterElems(sizeOf, a, |a.elems|, s) && known <= holders.Keys
      ensures |at| == |a.elems| - from && EndToEnd(at, p, sizeOf(a.cls))
      ensures unchanged(`offsets, `newActive, `noActive, `nestingLevel, `current, `roots, `safepoints, `collections)
      decreases a, 0, 1
    {
      hide AfterElems, AfterBody, Known, KnownBody, NoDup, Elems, Grew, Constructing.Valid, Metas, Offsets;
      GrewNone(objects, order, brk);
      var i, v := from, p;
      at := [];
      while i < |a.elems|
        invariant from <= i <= |a.elems| && v > 0 && Valid() && known <= holders.Keys
                  && Now() == AfterElems(sizeOf, a, i, s)
        invariant Grown() && |at| == i - from && EndToEnd(at, p, sizeOf(a.cls))
        invariant v == if at == [] then p else at[|at| - 1] + sizeOf(a.cls)
        invariant unchanged(`offsets, `newActive, `noActive, `nestingLevel, `current, `roots, `safepoints, `collections)
      {
        ElemsStep(sizeOf, a, i, s);
        ElementKnown(known, a, i);
        ghost var o, l, b := objects, order, brk;
        Construct(a.elems[i], v, known);
        at := at + [v];
        GrewMore(old(objects), old(order), old(brk), o, l, b, objects, order, brk);
        v := v + sizeOf(a.cls);
        i := i + 1;
      }
    }

    /** The class has no shell yet: the offsets of the first element become the shell, between
        saving and restoring those of an enclosing object. */
    method Discover(a: Action, p: int, ghost known: set<int>) returns (ghost at: seq<int>)
      requires nestingLevel > 0
      requires a.New? && Valid() && Known(known, a) && known <= holders.Keys && newActive && !noActive && p > 0
      requires a.elems != [] && a.cls !in holders
      modifies this
      ensures Valid() && Grown() && Now() == Shelled(sizeOf, a, old(Now())) && known <= holders.Keys && a.cls in holders
      ensures unchanged(`offsets, `newActive, `nestingLevel, `current, `roots, `safepoints, `collections)
      ensures |at| == |a.elems| && EndToEnd(at, p, sizeOf(a.cls))
      decreases a, 0, 3
    {
      hide AfterElems, Known, NoDup, Elems, Grew, Spaced, Metas, Offsets, EndToEnd;
      var temp := offsets;
      offsets := [];
      var oldCurrent := current;
      current := p;
      at := ConstructAll(a, p, known);
      CreateMeta(a.cls);
      offsets := temp;
      current := oldCurrent;
    }

    /** The first element is constructed with recording on, relative to itself, the others without. */
    method ConstructAll(a: Action, p: int, ghost known: set<int>) returns (ghost at: seq<int>)
      requires nestingLevel > 0
      requires a.New? && Valid() && Known(known, a) && known <= holders.Keys && newActive && !noActive
               && p == current > 0
      requires a.elems != [] && offsets == []
      modifies this
      ensures Valid() && Grown() && Now() == AfterElems(sizeOf, a, |a.elems|, old(Now())) && known <= holders.Keys
      ensures offsets == Offsets(a.elems[0].actions)
              && unchanged(`newActive, `nestingLevel, `current, `roots, `safepoints, `collections)
      ensures |at| == |a.elems| && EndToEnd(at, p, sizeOf(a.cls))
      decreases a, 0, 2
    {
      hide AfterElems, AfterBody, Known, KnownBody, NoDup, Elems, Grew, Constructing.Valid, Metas, Offsets;
      ElemsStart(sizeOf, a, Now());
      ElemsStep(sizeOf, a, 0, Now());
      ElementKnown(known, a, 0);
      Construct(a.elems[0], p, known);
      at := [p];
      if |a.elems| != 1 {
        ghost var o, l, b := objects, order, brk;
        noActive := true;
        ghost var rest := ConstructRest(a, 1, p + sizeOf(a.cls), known, old(Now()));
        at := at + rest;
        GrewMore(old(objects), old(order), old(brk), o, l, b, objects, order, brk);
      }
    }

    /** create_meta: size, count and offsets are copied to an array the holder then points to. */
    method CreateMeta(cls: int)
      modifies `holders
      ensures holders == old(holders)[cls := Shell(sizeOf(cls), offsets)]
    {
      var data: seq<int> := [];
      while |data| < |offsets|
        invariant |data| <= |offsets| && data == offsets[..|data|]
      {
        data := data + [offsets[|data|]];
      }
      assert data == offsets;
      holders := holders[cls := Shell(sizeOf(cls), data)];
    }
  }

  /** The metas of blocks in a given order. */
  ghost function Metas(objects: map<int, Meta>, order: seq<int>): seq<Meta> {
    seq(|order|, i requires 0 <= i < |order| => if order[i] in objects then objects[order[i]]
      else Meta(Shell(0, []), 0))
  }

  /** No block made before is lost or changed, and new ones lie beyond. */
  ghost predicate Grew(o: map<int, Meta>, order: seq<int>, brk: int, o': map<int, Meta>, order': seq<int>, brk': int) {
    && order <= order' && brk <= brk'
    && (forall r :: r in o ==> r in o' && o'[r] == o[r])
    && forall r :: r in o' && r !in o ==> r >= brk + META
  }

  lemma GrewNone(o: map<int, Meta>, order: seq<int>, brk: int)
    ensures Grew(o, order, brk, o, order, brk)
  {
  }

  lemma GrewMore(o: map<int, Meta>, l: seq<int>, b: int, o1: map<int, Meta>, l1: seq<int>, b1: int,
                 o2: map<int, Meta>, l2: seq<int>, b2: int)
    requires Grew(o, l, b, o1, l1, b1) && Grew(o1, l1, b1, o2, l2, b2)
    ensures Grew(o, l, b, o2, l2, b2)
  {
  }

  /** The new block's objects fit between what was there before and what its constructors have made. */
  lemma AddedBlock(o: map<int, Meta>, l: seq<int>, b: int, b1: int, o1: map<int, Meta>, l1: seq<int>, b2: int, r: int,
                   m: Meta)
    requires Spaced(o, b) && Spaced(o1, b2) && Grew(o, l, b1, o1, l1, b2) && 0 < b
    requires r == b + META && Extent(m) >= 0 && b1 == r + Extent(m) + BLOCK
    ensures r !in o && r !in o1 && Grew(o, l, b, o1[r := m], l1 + [r], b2) && Spaced(o1[r := m], b2)
  {
    hide Extent;
  }

  lemma ExtentOf(size: nat, count: nat, m: Meta)
    requires m.shell.size == size && m.count == count
    ensures Extent(m) == Extent(Meta(Shell(size, []), count)) >= 0
  {
  }

  lemma MetaAdded(o: map<int, Meta>, o': map<int, Meta>, order: seq<int>, r: int)
    requires NoDup(order) && o.Keys == Elems(order) && r !in o && r in o' && o' == o[r := o'[r]]
    ensures NoDup(order + [r]) && o'.Keys == Elems(order + [r]) && Metas(o', order + [r]) == Metas(o, order) + [o'[r]]
  {
    ElemsJoin(order, [r]);
    forall i | 0 <= i < |order|
      ensures order[i] in o && order[i] != r
    {
      ElemsHas(order, i);
    }
    assert Elems([r]) == {r};
  }

  /** The shell of a class lists all its gc_ptr fields exactly if its constructor builds none of them
      by move; it never lists anything else. */
  lemma {:induction false} MovedFieldsMissing(actions: seq<Action>)
    ensures |Offsets(actions)| <= |Fields(actions)| && forall o :: o in Offsets(actions) ==> o in Fields(actions)
    ensures (forall a :: a in actions && MovedField(a) ==> Field(a) == []) ==> Offsets(actions) == Fields(actions)
    ensures (exists a :: a in actions && MovedField(a) && Field(a) != []) ==> |Offsets(actions)| < |Fields(actions)|
  {
    if actions != [] {
      var r, a := actions[..|actions| - 1], actions[|actions| - 1];
      MovedFieldsMissing(r);
      assert actions == r + [a];
      assert forall x :: x in r ==> x in actions;
      assert a in actions;
      if x :| x in actions && MovedField(x) && Field(x) != [] {
        assert x in r || x == a;
        assert |Offsets(actions)| < |Fields(actions)|;
      } else {
        assert Offsets(r) == Fields(r) && Offset(a) == Field(a);
      }
    }
  }

  /** A shell lists no offset twice if the constructor builds no two gc_ptr in one place. */
  lemma {:induction false} OffsetsDistinct(actions: seq<Action>)
    requires NoDup(Fields(actions))
    ensures NoDup(Offsets(actions)) && forall o :: o in Offsets(actions) ==> o in Fields(actions)
  {
    if actions != [] {
      var r, a := actions[..|actions| - 1], actions[|actions| - 1];
      var fs, os := Fields(r), Offsets(r);
      assert Fields(actions) == fs + Field(a);
      assert forall i :: 0 <= i < |fs| ==> Fields(actions)[i] == fs[i];
      OffsetsDistinct(r);
      if Field(a) != [] {
        var o := Field(a)[0];
        assert Fields(actions)[|fs|] == o;
        assert o !in fs && o !in os;
      }
    }
  }
}
