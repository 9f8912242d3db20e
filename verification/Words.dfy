/** The bit tricks of the allocator on 64-bit words: rounding of sizes, and the three flag bits
    kept in the low end of a block's size word. */
module Words {
  import opened Objects

  /** `align`. The macro's test is `s & (7 == 0)`, always zero, so it rounds strictly up. */
  function Align(s: nat): (r: nat)
    ensures r % 8 == 0 && s < r <= s + 8
  {
    8 * (s / 8 + 1)
  }

  /** What a size word says: the size in bytes and the three flags. */
  datatype Header = Header(size: bv64, pin: bool, mark: bool, dead: bool)

  // PIN_FLAG, MARK_FLAG and DEAD_FLAG are 1, 2 and 4.
  function BlockSize(w: bv64): bv64 { w & !(1 as bv64) & !(2 as bv64) & !(4 as bv64) }

  predicate BlockIsPinned(w: bv64) { w & 1 != 0 }
  predicate BlockIsMarked(w: bv64) { w & 2 != 0 }
  predicate BlockIsDead(w: bv64) { w & 4 != 0 }

  function PinBlock(w: bv64): bv64 { w | 1 }
  function UnpinBlock(w: bv64): bv64 { w & !(1 as bv64) }
  function MarkBlock(w: bv64): bv64 { w | 2 }
  function UnmarkBlock(w: bv64): bv64 { w & !(2 as bv64) }
  function SetDeadFlag(w: bv64): bv64 { w | 4 }

  function Unpack(w: bv64): Header {
    Header(BlockSize(w), BlockIsPinned(w), BlockIsMarked(w), BlockIsDead(w))
  }

  function Flag(on: bool, flag: bv64): bv64 { if on then flag else 0 }

  function Pack(h: Header): bv64 {
    h.size | Flag(h.pin, 1) | Flag(h.mark, 2) | Flag(h.dead, 4)
  }

  /** Low bits under an aligned size are read back, and the size above them. */
  lemma LowBits(size: bv64, f: bv64)
    requires f & 7 == f
    ensures (size | f) & !(1 as bv64) & !(2 as bv64) & !(4 as bv64) == size <==> size & 7 == 0
    ensures size & 7 == 0 ==> (size | f) & 1 == f & 1 && (size | f) & 2 == f & 2 && (size | f) & 4 == f & 4
  {
  }

  lemma FlagBits(pin: bool, mark: bool, dead: bool)
    ensures var f := Flag(pin, 1) | Flag(mark, 2) | Flag(dead, 4);
      && f & 7 == f && (f & 1 != 0 <==> pin) && (f & 2 != 0 <==> mark) && (f & 4 != 0 <==> dead)
  {
  }

  lemma PackBits(h: Header)
    ensures Pack(h) == h.size | (Flag(h.pin, 1) | Flag(h.mark, 2) | Flag(h.dead, 4))
  {
  }

  /** The size word is read back as it was written exactly when the size is a multiple of 8. */
  lemma UnpackPack(h: Header)
    ensures Unpack(Pack(h)) == h <==> h.size & 7 == 0
  {
    hide Pack, Flag;
    PackBits(h);
    FlagBits(h.pin, h.mark, h.dead);
    LowBits(h.size, Flag(h.pin, 1) | Flag(h.mark, 2) | Flag(h.dead, 4));
  }

  /** Each flag macro changes its own flag and nothing else, the size least of all. */
  lemma FlagMacros(w: bv64)
    ensures Pack(Unpack(w)) == w && Unpack(w).size & 7 == 0
    ensures Unpack(PinBlock(w)) == Unpack(w).(pin := true)
    ensures Unpack(UnpinBlock(w)) == Unpack(w).(pin := false)
    ensures Unpack(MarkBlock(w)) == Unpack(w).(mark := true)
    ensures Unpack(UnmarkBlock(w)) == Unpack(w).(mark := false)
    ensures Unpack(SetDeadFlag(w)) == Unpack(w).(dead := true)
  {
  }

  // ----- the size words of all blocks, as the heap keeps them -----

  /** The size words say which blocks are marked, pinned and dead, and how large each is. */
  ghost predicate Says(words: map<int, bv64>, sizes: map<int, bv64>, marked: set<int>, pinned: set<int>,
                    dead: set<int>) {
    && words.Keys == sizes.Keys
    && forall b :: b in words ==> Unpack(words[b]) == Header(sizes[b], b in pinned, b in marked, b in dead)
  }

  lemma WordSaid(words: map<int, bv64>, sizes: map<int, bv64>, marked: set<int>, pinned: set<int>, dead: set<int>,
                 b: int)
    requires Says(words, sizes, marked, pinned, dead) && b in words
    ensures b in sizes && Unpack(words[b]) == Header(sizes[b], b in pinned, b in marked, b in dead)
  {
  }

  lemma WordSet(words: map<int, bv64>, sizes: map<int, bv64>, marked: set<int>, pinned: set<int>, dead: set<int>,
                b: int, w: bv64, marked': set<int>, pinned': set<int>, dead': set<int>)
    requires Says(words, sizes, marked, pinned, dead) && b in sizes
    requires Unpack(w) == Header(sizes[b], b in pinned', b in marked', b in dead')
    requires marked' - {b} == marked - {b} && pinned' - {b} == pinned - {b} && dead' - {b} == dead - {b}
    ensures Says(words[b := w], sizes, marked', pinned', dead')
  {
    hide Unpack;
    forall a | a in words && a != b
      ensures (a in marked' <==> a in marked) && (a in pinned' <==> a in pinned) && (a in dead' <==> a in dead)
    {
      assert a in marked' - {b} <==> a in marked';
      assert a in pinned' - {b} <==> a in pinned';
      assert a in dead' - {b} <==> a in dead';
    }
  }

  /** On the three sets, the flag macros add and remove a block, and leave the other sets and all sizes
      alone. */
  lemma FlagSets(words: map<int, bv64>, sizes: map<int, bv64>, marked: set<int>, pinned: set<int>, dead: set<int>,
                 b: int)
    requires Says(words, sizes, marked, pinned, dead) && b in words
    ensures Says(words[b := MarkBlock(words[b])], sizes, marked + {b}, pinned, dead)
    ensures Says(words[b := UnmarkBlock(words[b])], sizes, marked - {b}, pinned, dead)
    ensures Says(words[b := PinBlock(words[b])], sizes, marked, pinned + {b}, dead)
    ensures Says(words[b := UnpinBlock(words[b])], sizes, marked, pinned - {b}, dead)
    ensures Says(words[b := SetDeadFlag(words[b])], sizes, marked, pinned, dead + {b})
  {
    hide *;
    var w := words[b];
    FlagMacros(w);
    WordSaid(words, sizes, marked, pinned, dead, b);
    WordSet(words, sizes, marked, pinned, dead, b, MarkBlock(w), marked + {b}, pinned, dead);
    WordSet(words, sizes, marked, pinned, dead, b, UnmarkBlock(w), marked - {b}, pinned, dead);
    WordSet(words, sizes, marked, pinned, dead, b, PinBlock(w), marked, pinned + {b}, dead);
    WordSet(words, sizes, marked, pinned, dead, b, UnpinBlock(w), marked, pinned - {b}, dead);
    WordSet(words, sizes, marked, pinned, dead, b, SetDeadFlag(w), marked, pinned, dead + {b});
  }

  lemma PlainWord(size: bv64)
    ensures Unpack(size) == Header(size, false, false, false) <==> size & 7 == 0
  {
    UnpackPack(Header(size, false, false, false));
  }

  /** A block whose size word is just its size has no flag set, if the size is a multiple of 8. */
  lemma FreshWord(words: map<int, bv64>, sizes: map<int, bv64>, marked: set<int>, pinned: set<int>, dead: set<int>,
                  b: int, size: bv64)
    requires Says(words, sizes, marked, pinned, dead)
    ensures Says(words[b := size], sizes[b := size], marked - {b}, pinned - {b}, dead - {b}) <==> size & 7 == 0
  {
    hide Unpack, Pack;
    PlainWord(size);
    assert words[b := size][b] == size;
  }

  // ----- the two tag bits of a gc_ptr word -----

  function ClearStackFlag(x: bv64): bv64 { x & !(1 as bv64) }
  function ClearBothFlags(x: bv64): bv64 { x & !(3 as bv64) }
  function GetBothFlags(x: bv64): bv64 { x & 3 }
  function RestoreFlags(x: bv64, flags: bv64): bv64 { x | flags }

  /** A word is its cleared address and its flags; without the composite bit, clearing the stack
      flag alone clears both. */
  lemma SplitWord(x: bv64)
    ensures RestoreFlags(ClearBothFlags(x), GetBothFlags(x)) == x
    ensures x & 2 == 0 <==> ClearStackFlag(x) == ClearBothFlags(x)
  {
  }

  /** move_ptr: a new address put under the old flags splits into exactly those two, if and only if
      the address is aligned. */
  lemma MovedWord(x: bv64, value: bv64)
    ensures ClearBothFlags(RestoreFlags(value, GetBothFlags(x))) == value <==> value & 3 == 0
    ensures value & 3 == 0 ==> GetBothFlags(RestoreFlags(value, GetBothFlags(x))) == GetBothFlags(x)
  {
  }

  /** The word split at its tag bits, as the heap keeps it. */
  function WordOf(x: bv64): Word { Word(ClearBothFlags(x) as int, GetBothFlags(x) as int) }

  lemma SameWord(x: bv64, y: bv64)
    ensures WordOf(x) == WordOf(y) <==> x == y
  {
    SplitWord(x);
    SplitWord(y);
    hide ClearBothFlags, GetBothFlags, RestoreFlags;
    SameInt(ClearBothFlags(x), ClearBothFlags(y));
    SameInt(GetBothFlags(x), GetBothFlags(y));
  }

  lemma WordTests(x: bv64)
    ensures IsComposite(WordOf(x)) <==> x & 2 != 0
    ensures IsNullWord(WordOf(x)) <==> ClearBothFlags(x) == 0
  {
    hide ClearBothFlags, GetBothFlags;
    SmallBits(x);
    SameInt(ClearBothFlags(x), 0);
  }

  lemma MovedParts(x: bv64, value: bv64)
    requires value & 3 == 0
    ensures WordOf(RestoreFlags(value, GetBothFlags(x))) == Word(value as int, WordOf(x).flags)
  {
    hide ClearBothFlags, GetBothFlags, RestoreFlags;
    MovedWord(x, value);
  }

  /** The tests and the move of a gc_ptr, on the split word: no word is lost, a composite word has the second
      tag bit, and moving replaces the address part. */
  lemma WordParts(x: bv64, y: bv64, value: bv64)
    ensures WordOf(x) == WordOf(y) <==> x == y
    ensures IsComposite(WordOf(x)) <==> x & 2 != 0
    ensures IsNullWord(WordOf(x)) <==> ClearBothFlags(x) == 0
    ensures value & 3 == 0 ==> WordOf(RestoreFlags(value, GetBothFlags(x))) == Word(value as int, WordOf(x).flags)
  {
    SameWord(x, y);
    WordTests(x);
    if value & 3 == 0 { MovedParts(x, value); }
  }

  lemma SmallBits(x: bv64)
    ensures GetBothFlags(x) as int >= 2 <==> x & 2 != 0
  {
    var f := x & 3;
    assert f == 0 || f == 1 || f == 2 || f == 3;
    assert x & 2 == f & 2;
  }

  lemma SameInt(x: bv64, y: bv64)
    ensures x as int == y as int <==> x == y
  {
    BackAgain(x);
    BackAgain(y);
    if x as int == y as int {
      var i, j := x as int, y as int;
      assert i as bv64 == j as bv64;
    }
  }

  lemma BackAgain(x: bv64)
    ensures 0 <= x as int < 0x1_0000_0000_0000_0000 && (x as int) as bv64 == x
  {
  }
}
