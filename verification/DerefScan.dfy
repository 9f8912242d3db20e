/** What scanning stacks does to the table of dereferenced roots, as a function of the set of words
    seen: which entries are found, and which objects they pin. */
module DerefScan {
  import opened Objects
  import opened DerefRoots

  /** The object block whose address an entry registers. */
  function BlockOf(p: int): int { p - META - BLOCK }

  /** The word has an entry: mark_dereferenced_root looks at even words only, and only in the
      word's own bucket. */
  predicate Finds(t: seq<seq<Entry>>, w: int) {
    && |t| > 0 && w != 0 && w % 2 == 0
    && FirstHolder(t[Hash(w, |t|)], w) < |t[Hash(w, |t|)]|
  }

  function Found(t: seq<seq<Entry>>, w: int): Entry
    requires Finds(t, w)
  {
    t[Hash(w, |t|)][FirstHolder(t[Hash(w, |t|)], w)]
  }

  /** Entry k of bucket i is the one that some word of the set finds. */
  ghost predicate HitAt(t: seq<seq<Entry>>, seen: set<int>, i: int, k: int) {
    exists w :: w in seen && Finds(t, w) && i == Hash(w, |t|) && k == FirstHolder(t[i], w)
  }

  ghost function Pins(t: seq<seq<Entry>>, seen: set<int>): set<int> {
    set w | w in seen && Finds(t, w) :: BlockOf(Found(t, w).p)
  }

  ghost predicate MarkedTable(t0: seq<seq<Entry>>, t: seq<seq<Entry>>, seen: set<int>) {
    && |t| == |t0|
    && forall i :: 0 <= i < |t0| ==> MarkedBucket(t0, t[i], seen, i)
  }

  ghost predicate MarkedBucket(t0: seq<seq<Entry>>, es: seq<Entry>, seen: set<int>, i: int)
    requires 0 <= i < |t0|
  {
    && |es| == |t0[i]|
    && forall k :: 0 <= k < |es| ==> es[k] == Entry(t0[i][k].p, t0[i][k].end, HitAt(t0, seen, i, k))
  }

  ghost predicate Unmarked(t: seq<seq<Entry>>) {
    forall i, k :: 0 <= i < |t| && 0 <= k < |t[i]| ==> !t[i][k].marked
  }

  lemma NothingSeen(t: seq<seq<Entry>>)
    requires Unmarked(t)
    ensures MarkedTable(t, t, {}) && Pins(t, {}) == {}
  {
  }

  /** Marks do not matter to the search. */
  lemma {:induction false} SameHolder(es: seq<Entry>, es': seq<Entry>, w: int)
    requires |es| == |es'| && forall k :: 0 <= k < |es| ==> es'[k].p == es[k].p && es'[k].end == es[k].end
    ensures FirstHolder(es', w) == FirstHolder(es, w)
  {
  }

  lemma HashInside(w: int, n: nat)
    requires n > 0
    ensures 0 <= Hash(w, n) < n
  {
  }

  lemma MoreHits(t: seq<seq<Entry>>, seen: set<int>, w: int, i: int, k: int)
    requires 0 <= i < |t|
    ensures HitAt(t, seen + {w}, i, k) <==>
            HitAt(t, seen, i, k)
            || (Finds(t, w) && i == Hash(w, |t|) && k == FirstHolder(t[i], w))
  {
  }

  /** The word finds an entry that no word of the set has found. */
  ghost predicate NewHit(t: seq<seq<Entry>>, seen: set<int>, w: int) {
    Finds(t, w) && !HitAt(t, seen, Hash(w, |t|), FirstHolder(t[Hash(w, |t|)], w))
  }

  /** The objects that mark_stack pins and traverses, in this order: for each of the words hw that
      finds an entry not found before. */
  ghost function NewHits(t: seq<seq<Entry>>, words: seq<int>, hw: set<int>, seen0: set<int>): seq<int> {
    if words == [] then []
    else
      var before, w := words[..|words| - 1], words[|words| - 1];
      var hits := NewHits(t, before, hw, seen0);
      if w in hw && NewHit(t, SeenOf(before, hw, seen0), w) then hits + [BlockOf(Found(t, w).p)] else hits
  }

  ghost function SeenOf(words: seq<int>, hw: set<int>,
                    seen0: set<int>): set<int> { seen0 + set w | w in words && w in hw }

  lemma NextHits(t: seq<seq<Entry>>, words: seq<int>, hw: set<int>, seen0: set<int>, i: nat)
    requires i < |words|
    ensures var w, seen, hits := words[i], SeenOf(words[..i], hw, seen0), NewHits(t, words[..i], hw, seen0);
      && SeenOf(words[..i + 1], hw, seen0) == (if w in hw then seen + {w} else seen)
      && NewHits(t, words[..i + 1], hw, seen0) == if w in hw && NewHit(t, seen, w)
        then hits + [BlockOf(Found(t, w).p)] else hits
  {
    assert words[..i + 1][..i] == words[..i];
    hide NewHit;
    var now := words[..i + 1];
    forall v
      ensures v in now <==> v in words[..i] || v == words[i]
    {
      if v in words[..i] {
        var j :| 0 <= j < i && words[..i][j] == v;
        assert now[j] == v;
      }
      assert now[i] == words[i];
    }
  }

  lemma NoHits(t: seq<seq<Entry>>, words: seq<int>, hw: set<int>, seen0: set<int>)
    ensures NewHits(t, words[..0], hw, seen0) == [] && SeenOf(words[..0], hw, seen0) == seen0
  {
  }

  /** One more word: the table stays what the words seen make of it, and exactly if the entry was
      not marked before there may be a new pin. */
  lemma ScanWord(t0: seq<seq<Entry>>, t: seq<seq<Entry>>, t': seq<seq<Entry>>, seen: set<int>, w: int, newly: bool,
                 hit: int)
    requires |t| >= 1 && MarkedTable(t0, t, seen) && WordMarked(t, t', w, newly, hit)
    ensures MarkedTable(t0, t', seen + {w})
    ensures newly <==> NewHit(t0, seen, w)
    ensures newly ==> Finds(t0, w) && hit == Found(t0, w).p && Pins(t0, seen + {w}) == Pins(t0, seen) + {BlockOf(hit)}
    ensures !newly ==> Pins(t0, seen + {w}) == Pins(t0, seen)
  {
    if w == 0 || w % 2 != 0 {
      SeenForNothing(t0, t, seen, w);
    } else {
      var b := Hash(w, |t|);
      HashInside(w, |t|);
      assert MarkedBucket(t0, t[b], seen, b);
      SameHolder(t0[b], t[b], w);
      var k := FirstHolder(t[b], w);
      if k == |t[b]| {
        SeenForNothing(t0, t, seen, w);
      } else {
        assert Finds(t0, w);
        PinsMore(t0, seen, w);
        if !newly {
          assert HitAt(t0, seen, b, k);
          SeenBefore(t0, seen, w, b, k);
        }
        forall i | 0 <= i < |t0|
          ensures MarkedBucket(t0, t'[i], seen + {w}, i)
        {
          assert MarkedBucket(t0, t[i], seen, i);
          forall j | 0 <= j < |t0[i]|
            ensures t'[i][j] == Entry(t0[i][j].p, t0[i][j].end, HitAt(t0, seen + {w}, i, j))
          {
            MoreHits(t0, seen, w, i, j);
          }
        }
      }
    }
  }

  lemma SeenForNothing(t0: seq<seq<Entry>>, t: seq<seq<Entry>>, seen: set<int>, w: int)
    requires MarkedTable(t0, t, seen) && !Finds(t0, w)
    ensures MarkedTable(t0, t, seen + {w}) && Pins(t0, seen + {w}) == Pins(t0, seen)
  {
  }

  lemma PinsMore(t0: seq<seq<Entry>>, seen: set<int>, w: int)
    ensures Pins(t0, seen + {w}) == Pins(t0, seen) + (if Finds(t0, w) then {BlockOf(Found(t0, w).p)} else {})
  {
  }

  lemma SeenBefore(t0: seq<seq<Entry>>, seen: set<int>, w: int, i: int, k: int)
    requires 0 <= i < |t0| && Finds(t0, w) && i == Hash(w, |t0|) && k == FirstHolder(t0[i], w) && HitAt(t0, seen, i, k)
    ensures BlockOf(Found(t0, w).p) in Pins(t0, seen)
  {
  }

  /** A word that is the start address of a registered range finds an entry for that very address,
      if no other range in its bucket holds it. */
  lemma StartAddressPins(t: seq<seq<Entry>>, seen: set<int>, i: int, k: int)
    requires 0 <= i < |t| && 0 <= k < |t[i]| && t[i][k].p in seen && t[i][k].p <= t[i][k].end
    requires t[i][k].p != 0 && t[i][k].p % 2 == 0 && i == Hash(t[i][k].p, |t|)
    requires forall j :: 0 <= j < |t[i]| && Contains(t[i][j], t[i][k].p) ==> t[i][j].p == t[i][k].p
    ensures BlockOf(t[i][k].p) in Pins(t, seen)
    ensures exists j :: 0 <= j < |t[i]| && t[i][j].p == t[i][k].p && HitAt(t, seen, i, j)
  {
  }

  // ---------------------------------------------------------------- in plain arithmetic

  /** In each bucket, ranges that overlap are registrations of one object, with one extent. */
  ghost predicate OneObjectEach(t: seq<seq<Entry>>) {
    forall i, j, k :: 0 <= i < |t| && 0 <= j < |t[i]| && 0 <= k < |t[i]| ==>
      t[i][j].p <= t[i][k].end && t[i][k].p <= t[i][j].end ==> t[i][j].p == t[i][k].p && t[i][j].end == t[i][k].end
  }

  /** The word lies in the range of entry k of bucket i, is even, and hashes to that bucket. */
  predicate Touches(t: seq<seq<Entry>>, w: int, i: int, k: int)
    requires 0 <= i < |t| && 0 <= k < |t[i]|
  {
    w != 0 && w % 2 == 0 && w / 8 % |t| == i && t[i][k].p <= w <= t[i][k].end
  }

  /** What a word finds: the first registration of the object in whose range it lies, and only if its own
      bucket is the one that the object is registered in. */
  lemma FoundExactly(t: seq<seq<Entry>>, w: int, i: int, k: int)
    requires OneObjectEach(t) && 0 <= i < |t| && 0 <= k < |t[i]| && t[i][k].p <= t[i][k].end
    requires forall j :: 0 <= j < |t[i]| ==> t[i][j].p <= t[i][j].end
    ensures HitAt(t, {w}, i, k) <==> Touches(t, w, i, k) && forall j :: 0 <= j < k ==> t[i][j].p != t[i][k].p
  {
    var es := t[i];
    var f := FirstHolder(es, w);
    HashInside(w, |t|);
    if Touches(t, w, i, k) {
      assert Contains(es[k], w);
      assert f <= k && Contains(es[f], w);
      assert es[f].p == es[k].p;
      assert Finds(t, w);
      if f == k { assert w in {w}; }
    }
    forall j | 0 <= j < k && es[j].p == es[k].p
      ensures !HitAt(t, {w}, i, k)
    {
      assert es[j].end == es[k].end;
      assert Contains(es[k], w) ==> Contains(es[j], w);
    }
  }

  /** Which objects the words pin. */
  lemma PinsExactly(t: seq<seq<Entry>>, seen: set<int>, b: int)
    requires OneObjectEach(t)
    ensures b in Pins(t, seen) <==>
              exists w, i, k :: w in seen && 0 <= i < |t| && 0 <= k < |t[i]| && BlockOf(t[i][k].p) == b
                && Touches(t, w, i, k)
  {
    if b in Pins(t, seen) {
      var w :| w in seen && Finds(t, w) && BlockOf(Found(t, w).p) == b;
      HashInside(w, |t|);
      var i := Hash(w, |t|);
      var k := FirstHolder(t[i], w);
      assert Touches(t, w, i, k);
    }
    if w, i, k :| w in seen && 0 <= i < |t| && 0 <= k < |t[i]| && BlockOf(t[i][k].p) == b && Touches(t, w, i, k) {
      HashInside(w, |t|);
      var f := FirstHolder(t[i], w);
      assert Contains(t[i][k], w);
      assert f < |t[i]| && Contains(t[i][f], w);
      assert t[i][f].p == t[i][k].p;
      assert Finds(t, w) && Found(t, w).p == t[i][k].p;
    }
  }

  /** Each entry is in the bucket of its own address. */
  predicate OwnBuckets(t: seq<seq<Entry>>) {
    forall i, k :: 0 <= i < |t| && 0 <= k < |t[i]| ==> i == t[i][k].p / 8 % |t|
  }

  /** A word in an object's range that hashes to another bucket than its address does not pin it: a raw pointer
      to the second eight bytes of an object never does. */
  lemma InteriorMisses(t: seq<seq<Entry>>, i: int, k: int, w: int)
    requires OneObjectEach(t) && OwnBuckets(t) && 0 <= i < |t| && 0 <= k < |t[i]|
    ensures w / 8 % |t| != t[i][k].p / 8 % |t| ==> BlockOf(t[i][k].p) !in Pins(t, {w})
    ensures |t| > 1 && t[i][k].p <= w - 8 < t[i][k].p + 8 && t[i][k].p % 8 == 0 ==> BlockOf(t[i][k].p) !in Pins(t, {w})
  {
    var b, n := BlockOf(t[i][k].p), |t|;
    PinsExactly(t, {w}, b);
    if n > 1 && t[i][k].p <= w - 8 < t[i][k].p + 8 && t[i][k].p % 8 == 0 {
      NextBucket(t[i][k].p / 8, n);
      assert w / 8 == t[i][k].p / 8 + 1;
    }
  }

  lemma NextBucket(x: int, n: int)
    requires n > 1
    ensures (x + 1) % n != x % n
  {
    var q, r := x / n, x % n;
    assert x == q * n + r;
    if (x + 1) % n == r {
      var q' := (x + 1) / n;
      assert x + 1 == q' * n + r;
      assert (q' - q) * n == 1;
      Unit(q' - q, n);
    }
  }

  lemma Unit(a: int, n: int)
    requires n > 1
    ensures a * n != 1
  {
    if a >= 1 { assert a * n >= n; }
    if a <= 0 { assert a * n <= 0; }
  }
}
