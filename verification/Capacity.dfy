/** How large a stack go needs. A stack of max_stack_size entries may overflow on a large heap. If each of n
    unmarked objects has at most f fields, it never does on more than (n-1)(f-1) entries, although go
    also pushes and rescans objects that have been marked in the meantime; and on more than (n-2)(f-1)
    entries an overflow is harmless, since what was dropped is on the stack already. */
module Capacity {
  import opened Lists
  import opened Objects
  import opened GoSpec

  // ---------------------------------------------------------------- the fields go reads

  lemma {:induction false} OffsetSeqIs(offsets: seq<int>, base: int, k: int)
    ensures k in OffsetSeq(offsets, base) <==> exists j :: 0 <= j < |offsets| && k == FieldAt(base + offsets[j])
  {
    if offsets != [] {
      OffsetSeqIs(offsets[1..], base, k);
      if j :| 0 <= j < |offsets| && k == FieldAt(base + offsets[j]) {
        if j > 0 { assert offsets[1..][j - 1] == offsets[j]; }
      }
    }
  }

  lemma {:induction false} RowsAre(sh: Shell, base: int, n: nat, k: int)
    ensures k in RowsSeq(sh, base, n) <==> k in FieldsFrom(sh, base, n)
    decreases n
  {
    if n > 0 {
      RowsAre(sh, base + sh.size, n - 1, k);
      OffsetSeqIs(sh.offsets, base, k);
      OffsetFieldsAre(sh.offsets, base, k);
    }
  }

  /** go reads exactly the words that are fields. */
  lemma ScansFields(shells: Shells, d: Payload, k: int)
    requires MetaOk(shells, d)
    ensures k in ScanSeq(shells, d) <==> k in Fields(shells, d)
  {
    RowsAre(shells[d[1]], 0, Value(d[2]), k);
  }

  /** The order in which go reads: element by element, and within each the offsets in order. */
  lemma {:induction false} RowsInOrder(sh: Shell, base: int, n: nat, i: nat, j: nat)
    requires i < n && j < |sh.offsets|
    ensures var at := ElementAt(|sh.offsets|, i) + j;
            0 <= at < |RowsSeq(sh, base, n)|
            && RowsSeq(sh, base, n)[at] == (META + base + ElementAt(sh.size, i) + sh.offsets[j]) / 8
    ensures |RowsSeq(sh, base, n)| == ElementAt(|sh.offsets|, n)
    decreases n
  {
    hide ElementAt;
    RowInOrder(sh.offsets, base);
    NextElement(|sh.offsets|, n - 1);
    NextElement(sh.size, 0);
    NextElement(|sh.offsets|, 0);
    RowsCount(sh, base + sh.size, n - 1);
    if i > 0 {
      NextElement(|sh.offsets|, i - 1);
      NextElement(sh.size, i - 1);
      RowsInOrder(sh, base + sh.size, n - 1, i - 1, j);
    }
  }

  lemma {:induction false} RowsCount(sh: Shell, base: int, n: nat)
    ensures |RowsSeq(sh, base, n)| == ElementAt(|sh.offsets|, n)
    decreases n
  {
    if n > 0 {
      RowInOrder(sh.offsets, base);
      RowsCount(sh, base + sh.size, n - 1);
      NextElement(|sh.offsets|, n - 1);
    }
  }

  lemma {:induction false} RowInOrder(offsets: seq<int>, base: int)
    ensures |OffsetSeq(offsets, base)| == |offsets|
    ensures forall j :: 0 <= j < |offsets| ==> OffsetSeq(offsets, base)[j] == (META + base + offsets[j]) / 8
  {
    if offsets != [] {
      RowInOrder(offsets[1..], base);
    }
  }

  /** So the words read of a block, and their order. */
  lemma ScanOrder(shells: Shells, d: Payload, i: nat, j: nat)
    requires MetaOk(shells, d) && i < Value(d[2]) && j < |shells[d[1]].offsets|
    ensures var sh := shells[d[1]];
            var at := ElementAt(|sh.offsets|, i) + j;
            0 <= at < |ScanSeq(shells, d)| && |ScanSeq(shells, d)| == ElementAt(|sh.offsets|, Value(d[2]))
            && ScanSeq(shells, d)[at] == (META + ElementAt(sh.size, i) + sh.offsets[j]) / 8
  {
    RowsInOrder(shells[d[1]], 0, Value(d[2]), i, j);
  }

  lemma {:induction false} TargetsAre(d: Payload, ks: seq<int>, y: int)
    ensures y in Targets(d, ks) <==> exists k :: k in ks && 0 <= k < |d| && !IsNullWord(d[k]) && y == TargetOf(d[k])
  {
    if ks != [] {
      TargetsAre(d, ks[1..], y);
      assert forall k :: k in ks <==> k == ks[0] || k in ks[1..];
    }
  }

  /** The targets of an object are its successors. */
  lemma OutIsSucc(shells: Shells, mem: Memory, v: int)
    requires v in mem && MetaOk(shells, mem[v])
    ensures forall y :: y in OutOf(shells, mem, v) <==> y in Succ(shells, mem[v])
  {
    var d := mem[v];
    forall y
      ensures y in OutOf(shells, mem, v) <==> y in Succ(shells, d)
    {
      TargetsAre(d, ScanSeq(shells, d), y);
      forall k
        ensures k in ScanSeq(shells, d) <==> k in Fields(shells, d)
      {
        ScansFields(shells, d, k);
      }
    }
  }

  // ---------------------------------------------------------------- what a scan pushes

  /** A scan pushes unmarked targets only; unless it drops something it pushes them all, and it
      drops nothing if they all fit. */
  lemma {:induction false} PushesShape(ts: seq<int>, marked: set<int>, cap: nat, s: Scan)
    requires |s.content| <= cap
    ensures var r := Pushes(ts, marked, cap, s);
      && s.content <= r.content && |s.content| <= |r.content| <= cap && |r.content| <= |s.content| + |ts|
      && (forall i :: |s.content| <= i < |r.content| ==> r.content[i] in ts && r.content[i] !in marked)
      && (s.dropped ==> r.dropped) && (|s.content| + |ts| <= cap ==> r.dropped == s.dropped)
      && (r.dropped && !s.dropped ==> |r.content| == cap)
      && (!r.dropped ==> forall y :: y in ts ==> y in marked || y in r.content[|s.content|..])
  {
    if ts != [] {
      var s' := if ts[0] in marked then s
                else if |s.content| >= cap then s.(dropped := true)
                else s.(content := s.content + [ts[0]]);
      PushesShape(ts[1..], marked, cap, s');
      var r := Pushes(ts, marked, cap, s);
      assert r == Pushes(ts[1..], marked, cap, s');
      if !r.dropped {
        forall y | y in ts
          ensures y in marked || y in r.content[|s.content|..]
        {
          PushedOne(ts, marked, s, s', r, y);
        }
      }
    }
  }

  lemma PushedOne(ts: seq<int>, marked: set<int>, s: Scan, s': Scan, r: Scan, y: int)
    requires ts != [] && y in ts && s.content <= s'.content <= r.content
    requires ts[0] in marked || s'.content == s.content + [ts[0]]
    requires y in ts[1..] ==> y in marked || y in r.content[|s'.content|..]
    ensures y in marked || y in r.content[|s.content|..]
  {
    if y !in marked {
      if y in ts[1..] {
        var i :| 0 <= i < |r.content| - |s'.content| && r.content[|s'.content|..][i] == y;
        assert r.content[|s.content|..][i + |s'.content| - |s.content|] == y;
      } else {
        assert y == ts[0] && r.content[|s.content|] == s'.content[|s.content|] == y;
        assert r.content[|s.content|..][0] == y;
      }
    }
  }

  lemma {:induction false} NothingToPush(ts: seq<int>, marked: set<int>, cap: nat, s: Scan)
    requires forall y :: y in ts ==> y in marked
    ensures Pushes(ts, marked, cap, s) == s
  {
    if ts != [] {
      var y := ts[0];
      assert y in ts && y in marked;
      NothingToPush(ts[1..], marked, cap, s);
    }
  }

  /** The first push onto a stack with room succeeds. */
  lemma {:induction false} FirstPushed(ts: seq<int>, marked: set<int>, cap: nat, s: Scan, y: int)
    requires |s.content| < cap && y in ts && y !in marked && forall x :: x in ts ==> x in marked || x == y
    ensures y in Pushes(ts, marked, cap, s).content[|s.content|..]
  {
    assert forall x :: x in ts[1..] ==> x in ts;
    if ts[0] in marked {
      FirstPushed(ts[1..], marked, cap, s, y);
    } else {
      var s' := s.(content := s.content + [y]);
      assert ts[0] in ts && ts[0] == y;
      PushesShape(ts[1..], marked, cap, s');
      var r := Pushes(ts, marked, cap, s);
      assert r.content[|s.content|..][0] == y;
    }
  }

  // ---------------------------------------------------------------- the whole of go

  /** No object of u has more than f fields. */
  ghost predicate FieldBound(shells: Shells, mem: Memory, u: set<int>, f: nat) {
    forall b :: b in u ==> b in mem && MetaOk(shells, mem[b]) && |ScanSeq(shells, mem[b])| <= f
  }

  /** A heap of n unmarked objects, each with at most f fields, whose marked objects have all their
      successors marked. */
  ghost predicate GoHeap(shells: Shells, mem: Memory, u: set<int>, m0: set<int>, n: nat, f: nat) {
    && Graph(shells, mem, u, {}) && FieldBound(shells, mem, u, f) && |u - m0| == n
    && forall x :: x in m0 * u && x in mem && MetaOk(shells, mem[x]) ==> Succ(shells, mem[x]) <= m0
  }

  /** A marked object has an unmarked successor. */
  ghost predicate Loses(shells: Shells, mem: Memory, u: set<int>, marked: set<int>) {
    exists x, y :: x in marked * u && x in mem && MetaOk(shells, mem[x]) && y in Succ(shells, mem[x]) && y !in marked
  }

  ghost predicate Into(content: seq<int>, u: set<int>) { forall i :: 0 <= i < |content| ==> content[i] in u }

  function Room(u: set<int>, marked: set<int>, g: nat): nat { |u - marked| * g }

  /** Nothing has been dropped: a marked object on the stack has all its successors marked or above
      it; whatever has been marked has them marked or on the stack; and every object marked so far has
      made the stack at most g entries higher. */
  ghost predicate Tight(shells: Shells, mem: Memory, u: set<int>, g: nat, m0: set<int>, s: GoState) {
    && !s.overflow && m0 <= s.marked <= m0 + u && Into(s.content, u)
    && (forall i :: 0 <= i < |s.content| && s.content[i] in s.marked ==> Above(shells, mem, s, i))
    && (forall x, y :: x in s.marked * u && y in OutOf(shells, mem, x) ==> y in s.marked || y in s.content)
    && |s.content| + Room(u, s.marked, g) <= 1 + Room(u, m0, g)
  }

  ghost predicate Above(shells: Shells, mem: Memory, s: GoState, i: int)
    requires 0 <= i < |s.content|
  {
    forall y :: y in OutOf(shells, mem, s.content[i]) ==> y in s.marked || y in s.content[i + 1..]
  }

  /** At most one object is unmarked still, and it is on the stack. */
  ghost predicate Late(u: set<int>, m0: set<int>, s: GoState) {
    && m0 <= s.marked <= m0 + u && Into(s.content, u)
    && |u - s.marked| <= 1 && u - s.marked <= Elems(s.content)
  }

  lemma TightStart(shells: Shells, mem: Memory, u: set<int>, n: nat, f: nat, m0: set<int>, root: int)
    requires GoHeap(shells, mem, u, m0, n, f) && f >= 1 && root in u
    ensures Tight(shells, mem, u, f - 1, m0, GoState([root], m0, false))
  {
    var s := GoState([root], m0, false);
    forall x, y | x in m0 * u && y in OutOf(shells, mem, x)
      ensures y in m0
    {
      OutIsSucc(shells, mem, x);
    }
  }

  /** The room left, in terms of the objects left. */
  lemma RoomLeft(u: set<int>, marked: set<int>, v: int, g: nat)
    requires v in u && v !in marked
    ensures Room(u, marked, g) == Room(u, marked + {v}, g) + g
    ensures |u - marked| == |u - (marked + {v})| + 1
    ensures |u - (marked + {v})| >= 1 ==> Room(u, marked + {v}, g) >= g
    ensures |u - (marked + {v})| >= 2 ==> Room(u, marked + {v}, g) >= 2 * g
    ensures |u - (marked + {v})| == 1 ==> Room(u, marked + {v}, g) == g
    ensures |u - (marked + {v})| == 0 ==> Room(u, marked + {v}, g) == 0
  {
    assert u - marked == (u - (marked + {v})) + {v};
    var r := |u - (marked + {v})|;
    assert |u - marked| == r + 1;
    Distribute(r, g);
  }

  lemma Distribute(r: nat, g: nat)
    ensures (r + 1) * g == r * g + g
    ensures r >= 1 ==> r * g >= g
    ensures r >= 2 ==> r * g >= 2 * g
    ensures (r - 1) * g == r * g - g && (r - 2) * g == r * g - 2 * g
  {
    if r >= 2 { assert r * g == (r - 2) * g + 2 * g; }
  }

  /** A marked object comes off the stack: its targets are marked, so nothing is pushed. */
  lemma TightAgain(shells: Shells, mem: Memory, u: set<int>, g: nat, m0: set<int>, cap: nat, below: seq<int>, v: int,
                   marked: set<int>)
    requires Tight(shells, mem, u, g, m0, GoState(below + [v], marked, false)) && v in marked && v in mem
             && MetaOk(shells, mem[v])
    ensures GoRound(shells, mem, cap, GoState(below + [v], marked, false)) == GoState(below, marked, false)
    ensures Tight(shells, mem, u, g, m0, GoState(below, marked, false))
  {
    var s, s' := GoState(below + [v], marked, false), GoState(below, marked, false);
    assert s.content[|below|] == v && s.content[|below| + 1..] == [] && marked + {v} == marked;
    assert Above(shells, mem, s, |below|);
    NothingToPush(OutOf(shells, mem, v), marked, cap, Scan(below, false));
    RoundIs(shells, mem, cap, below, v, marked, false);
    forall i | 0 <= i < |below|
      ensures below[i] in u && (below[i] in marked ==> Above(shells, mem, s', i))
    {
      assert s.content[i] == below[i] && s.content[i + 1..] == below[i + 1..] + [v];
    }
    forall y | y in s.content
      ensures y in below || y in marked
    {
    }
  }

  /** An unmarked object comes off the stack, and nothing it pushes is dropped. */
  lemma TightMark(shells: Shells, mem: Memory, u: set<int>, g: nat, m0: set<int>, cap: nat, below: seq<int>, v: int,
                  marked: set<int>, r: Scan)
    requires Graph(shells, mem, u, {}) && FieldBound(shells, mem, u, g + 1) && v !in marked && |below| <= cap
    requires Tight(shells, mem, u, g, m0, GoState(below + [v], marked, false))
    requires r == Pushes(OutOf(shells, mem, v), marked + {v}, cap, Scan(below, false)) && !r.dropped
    ensures Tight(shells, mem, u, g, m0, GoState(r.content, marked + {v}, false))
  {
    var s, s', ts := GoState(below + [v], marked, false), GoState(r.content, marked + {v}, false),
        OutOf(shells, mem, v);
    assert s.content[|below|] == v;
    RoomLeft(u, marked, v, g);
    OutInto(shells, mem, u, g + 1, v);
    PushesShape(ts, marked + {v}, cap, Scan(below, false));
    PushedInto(u, below, v, ts, r.content);
    CoveredStill(shells, mem, u, s, s', below, v);
    forall i | 0 <= i < |r.content| && r.content[i] in s'.marked
      ensures Above(shells, mem, s', i)
    {
      StillAbove(shells, mem, s, s', below, v, i);
    }
    hide Graph, FieldBound, OutOf, Pushes, Room, Into, Above;
  }

  lemma PushedInto(u: set<int>, below: seq<int>, v: int, ts: seq<int>, content: seq<int>)
    requires Into(below + [v], u) && below <= content && forall y :: y in ts ==> y in u
    requires forall i :: |below| <= i < |content| ==> content[i] in ts
    ensures Into(content, u)
  {
    forall i | 0 <= i < |content|
      ensures content[i] in u
    {
      if i < |below| {
        assert content[i] == below[i] == (below + [v])[i];
      } else {
        var y := content[i];
        assert y in ts;
      }
    }
  }

  lemma CoveredStill(shells: Shells, mem: Memory, u: set<int>, s: GoState, s': GoState, below: seq<int>, v: int)
    requires s.content == below + [v] && below <= s'.content && s'.marked == s.marked + {v}
    requires forall x, y :: x in s.marked * u && y in OutOf(shells, mem, x) ==> y in s.marked || y in s.content
    requires forall y :: y in OutOf(shells, mem, v) ==> y in s'.marked || y in s'.content[|below|..]
    ensures forall x, y :: x in s'.marked * u && y in OutOf(shells, mem, x) ==> y in s'.marked || y in s'.content
  {
    hide OutOf;
    forall x, y | x in s'.marked * u && y in OutOf(shells, mem, x)
      ensures y in s'.marked || y in s'.content
    {
      if x in s.marked {
        assert x in s.marked * u;
        assert y in s.content ==> y in below || y == v;
        assert y in below ==> y in s'.content;
      }
    }
  }

  lemma OutInto(shells: Shells, mem: Memory, u: set<int>, f: nat, v: int)
    requires Graph(shells, mem, u, {}) && FieldBound(shells, mem, u, f) && v in u
    ensures v in mem && MetaOk(shells, mem[v]) && |OutOf(shells, mem, v)| <= f && forall y ::
            y in OutOf(shells, mem, v) ==> y in u
  {
    assert v in u - {};
    OutIsSucc(shells, mem, v);
    ScanIsPushes(mem[v], ScanSeq(shells, mem[v]), {}, 0, Scan([], false));
  }

  /** A marked object further down: the targets it had above it are there still, or v, or marked. */
  lemma StillAbove(shells: Shells, mem: Memory, s: GoState, s': GoState, below: seq<int>, v: int, i: nat)
    requires s.content == below + [v] && below <= s'.content && i < |s'.content| && s'.marked == s.marked + {v}
    requires forall j :: 0 <= j < |s.content| && s.content[j] in s.marked ==> Above(shells, mem, s, j)
    requires forall j :: |below| <= j < |s'.content| ==> s'.content[j] !in s'.marked
    requires forall y :: y in OutOf(shells, mem, v) ==> y in s'.marked || y in s'.content[|below|..]
    requires s'.content[i] in s'.marked
    ensures Above(shells, mem, s', i)
  {
    hide OutOf;
    assert i < |below| && s'.content[i] == below[i] == s.content[i];
    assert s'.content[i + 1..] == below[i + 1..] + s'.content[|below|..];
    assert s.content[i + 1..] == below[i + 1..] + [v];
  }

  /** One object is left unmarked and something has been dropped: the one left was pushed first. */
  lemma LateMark(shells: Shells, mem: Memory, u: set<int>, g: nat, m0: set<int>, cap: nat, below: seq<int>, v: int,
                 marked: set<int>, r: Scan)
    requires Graph(shells, mem, u, {}) && FieldBound(shells, mem, u, g + 1) && v !in marked && |below| < cap
    requires Tight(shells, mem, u, g, m0, GoState(below + [v], marked, false)) && |u - (marked + {v})| <= 1
    requires r == Pushes(OutOf(shells, mem, v), marked + {v}, cap, Scan(below, false)) && r.dropped
    ensures Late(u, m0, GoState(r.content, marked + {v}, true))
  {
    var s, ts := GoState(below + [v], marked, false), OutOf(shells, mem, v);
    assert s.content[|below|] == v;
    OutInto(shells, mem, u, g + 1, v);
    PushesShape(ts, marked + {v}, cap, Scan(below, false));
    PushedInto(u, below, v, ts, r.content);
    hide Graph, FieldBound, OutOf, Into, Room, Above;
    if forall y :: y in ts ==> y in marked + {v} {
      NothingToPush(ts, marked + {v}, cap, Scan(below, false));
    } else {
      var y :| y in ts && y !in marked + {v};
      hide Tight, Pushes;
      var rest := u - (marked + {v});
      assert y in u;
      OnlyOne(rest, y);
      forall x | x in ts
        ensures x in marked + {v} || x == y
      {
        assert x in u;
        assert x !in marked + {v} ==> x in rest;
      }
      FirstPushed(ts, marked + {v}, cap, Scan(below, false), y);
      assert y in r.content && rest <= Elems(r.content);
    }
  }

  lemma OnlyOne(rest: set<int>, y: int)
    requires |rest| <= 1 && y in rest
    ensures rest == {y}
  {
    assert rest == {y} + (rest - {y});
  }

  /** Late rounds. */
  lemma LateRound(shells: Shells, mem: Memory, u: set<int>, f: nat, m0: set<int>, cap: nat, below: seq<int>, v: int,
                  marked: set<int>, overflow: bool)
    requires Graph(shells, mem, u, {}) && FieldBound(shells, mem, u, f) && |below| <= cap
    requires Late(u, m0, GoState(below + [v], marked, overflow))
    ensures Late(u, m0, GoRound(shells, mem, cap, GoState(below + [v], marked, overflow)))
    ensures |GoRound(shells, mem, cap, GoState(below + [v], marked, overflow)).content| <= cap
  {
    var s, ts := GoState(below + [v], marked, overflow), OutOf(shells, mem, v);
    assert s.content[|below|] == v;
    OutInto(shells, mem, u, f, v);
    RoundIs(shells, mem, cap, below, v, marked, overflow);
    PushesShape(ts, marked + {v}, cap, Scan(below, false));
    var r := Pushes(ts, marked + {v}, cap, Scan(below, false));
    PushedInto(u, below, v, ts, r.content);
    hide Graph, FieldBound, OutOf, GoRound, Into, Pushes;
    StillWaiting(u - marked, u - (marked + {v}), below, v, r.content);
    Fewer(u, marked, v);
  }

  lemma StillWaiting(rest: set<int>, rest': set<int>, below: seq<int>, v: int, content: seq<int>)
    requires rest <= Elems(below + [v]) && rest' == rest - {v} && below <= content
    ensures rest' <= Elems(content)
  {
    forall y | y in rest'
      ensures y in Elems(content)
    {
      assert y in Elems(below + [v]) && y in below;
    }
  }

  lemma Fewer(u: set<int>, marked: set<int>, v: int)
    ensures |u - (marked + {v})| <= |u - marked|
  {
    assert u - marked == (u - (marked + {v})) + ((u - marked) * {v});
  }

  /** Between rounds: nothing has been dropped, or nothing that matters. */
  ghost predicate Sure(shells: Shells, mem: Memory, u: set<int>, g: nat, m0: set<int>, cap: nat, s: GoState) {
    |s.content| <= cap && (Tight(shells, mem, u, g, m0, s) || Late(u, m0, s))
  }

  /** A round in which nothing has been dropped so far. On more than (n-1)g entries it drops nothing;
      on more than (n-2)g it drops only what it has pushed before. */
  lemma TightRound(shells: Shells, mem: Memory, u: set<int>, n: nat, g: nat, m0: set<int>, cap: nat, below: seq<int>,
                   v: int, marked: set<int>)
    requires Graph(shells, mem, u, {}) && FieldBound(shells, mem, u, g + 1) && |u - m0| == n && |below| < cap
    requires Tight(shells, mem, u, g, m0, GoState(below + [v], marked, false)) && cap > (n - 2) * g
    ensures var s' := GoRound(shells, mem, cap, GoState(below + [v], marked, false));
      && |s'.content| <= cap && (Tight(shells, mem, u, g, m0, s') || Late(u, m0, s'))
      && (cap > (n - 1) * g ==> Tight(shells, mem, u, g, m0, s'))
  {
    var s, ts := GoState(below + [v], marked, false), OutOf(shells, mem, v);
    assert s.content[|below|] == v;
    OutInto(shells, mem, u, g + 1, v);
    RoundIs(shells, mem, cap, below, v, marked, false);
    if v in marked {
      TightAgain(shells, mem, u, g, m0, cap, below, v, marked);
    } else {
      var r := Pushes(ts, marked + {v}, cap, Scan(below, false));
      RoomLeft(u, marked, v, g);
      Distribute(n, g);
      PushesShape(ts, marked + {v}, cap, Scan(below, false));
      if |u - (marked + {v})| == 0 {
        AllMarked(u, marked + {v}, ts);
        NothingToPush(ts, marked + {v}, cap, Scan(below, false));
      }
      hide Graph, FieldBound, OutOf, Pushes, GoRound;
      if r.dropped {
        LateMark(shells, mem, u, g, m0, cap, below, v, marked, r);
      } else {
        TightMark(shells, mem, u, g, m0, cap, below, v, marked, r);
      }
    }
  }

  lemma AllMarked(u: set<int>, marked: set<int>, ts: seq<int>)
    requires |u - marked| == 0 && forall y :: y in ts ==> y in u
    ensures forall y :: y in ts ==> y in marked
  {
    assert u - marked == {};
    forall y | y in ts
      ensures y in marked
    {
      assert y in u && y !in u - marked;
    }
  }

  lemma SureRound(shells: Shells, mem: Memory, u: set<int>, n: nat, g: nat, m0: set<int>, cap: nat, s: GoState)
    requires Graph(shells, mem, u, {}) && FieldBound(shells, mem, u, g + 1) && |u - m0| == n
    requires Sure(shells, mem, u, g, m0, cap, s) && cap > (n - 2) * g
    ensures Sure(shells, mem, u, g, m0, cap, GoRound(shells, mem, cap, s))
    ensures cap > (n - 1) * g && Tight(shells, mem, u, g, m0, s) ==>
            Tight(shells, mem, u, g, m0, GoRound(shells, mem, cap, s))
  {
    if s.content != [] {
      var below, v := s.content[..|s.content| - 1], s.content[|s.content| - 1];
      assert s.content == below + [v];
      hide Graph, FieldBound, GoRound, Tight, Late;
      if Tight(shells, mem, u, g, m0, s) {
        NotYet(shells, mem, u, g, m0, s);
        TightRound(shells, mem, u, n, g, m0, cap, below, v, s.marked);
      } else {
        LateRound(shells, mem, u, g + 1, m0, cap, below, v, s.marked, s.overflow);
      }
    }
  }

  lemma NotYet(shells: Shells, mem: Memory, u: set<int>, g: nat, m0: set<int>, s: GoState)
    requires Tight(shells, mem, u, g, m0, s)
    ensures s == GoState(s.content, s.marked, false)
  {
  }

  lemma {:induction false} SureRounds(shells: Shells, mem: Memory, u: set<int>, n: nat, g: nat, m0: set<int>, cap: nat,
                                      s: GoState, k: nat)
    requires Graph(shells, mem, u, {}) && FieldBound(shells, mem, u, g + 1) && |u - m0| == n
    requires Sure(shells, mem, u, g, m0, cap, s) && cap > (n - 2) * g
    ensures Sure(shells, mem, u, g, m0, cap, GoRounds(shells, mem, cap, s, k))
    ensures cap > (n - 1) * g && Tight(shells, mem, u, g, m0, s) ==>
            Tight(shells, mem, u, g, m0, GoRounds(shells, mem, cap, s, k))
  {
    hide Graph, FieldBound, Sure, Tight, GoRound;
    if k > 0 {
      SureRounds(shells, mem, u, n, g, m0, cap, s, k - 1);
      SureRound(shells, mem, u, n, g, m0, cap, GoRounds(shells, mem, cap, s, k - 1));
    }
  }

  /** When the stack is empty at last, no marked object has an unmarked successor. */
  lemma SureEnd(shells: Shells, mem: Memory, u: set<int>, g: nat, m0: set<int>, cap: nat, marked: set<int>,
                overflow: bool)
    requires Graph(shells, mem, u, {}) && Sure(shells, mem, u, g, m0, cap, GoState([], marked, overflow))
    ensures !Loses(shells, mem, u, marked)
  {
    var s := GoState([], marked, overflow);
    forall x, y | x in marked * u && x in mem && MetaOk(shells, mem[x]) && y in Succ(shells, mem[x])
      ensures y in marked
    {
      OutIsSucc(shells, mem, x);
      assert x in u - {};
      if Late(u, m0, s) { LateEnd(u, m0, s); }
    }
  }

  lemma LateEnd(u: set<int>, m0: set<int>, s: GoState)
    requires Late(u, m0, s) && s.content == []
    ensures u <= s.marked
  {
    var rest := u - s.marked;
    assert Elems(s.content) == {} && rest == {};
    forall y | y in u
      ensures y in s.marked
    {
      assert y !in rest;
    }
  }

  /** On more than (n-1)(f-1) entries go never overflows. */
  lemma CapacitySuffices(shells: Shells, mem: Memory, u: set<int>, n: nat, f: nat, m0: set<int>, cap: nat, root: int,
                         marked: set<int>, overflow: bool)
    requires GoHeap(shells, mem, u, m0, n, f) && f >= 1 && root in u && cap >= 1 && cap > (n - 1) * (f - 1)
    requires GoExact(shells, mem, cap, root, m0, marked, overflow)
    ensures !overflow
  {
    var s := GoState([root], m0, false);
    TightStart(shells, mem, u, n, f, m0, root);
    var k: nat :| GoRounds(shells, mem, cap, s, k) == GoState([], marked, overflow);
    Distribute(n, f - 1);
    SureRounds(shells, mem, u, n, f - 1, m0, cap, s, k);
  }

  /** On more than (n-2)(f-1) entries no marked object has an unmarked successor when go ends, whether
      or not it has overflowed. */
  lemma OverflowHarmless(shells: Shells, mem: Memory, u: set<int>, n: nat, f: nat, m0: set<int>, cap: nat, root: int,
                         marked: set<int>, overflow: bool)
    requires GoHeap(shells, mem, u, m0, n, f) && f >= 1 && root in u && cap >= 1 && cap > (n - 2) * (f - 1)
    requires GoExact(shells, mem, cap, root, m0, marked, overflow)
    ensures !Loses(shells, mem, u, marked)
  {
    var s := GoState([root], m0, false);
    TightStart(shells, mem, u, n, f, m0, root);
    var k: nat :| GoRounds(shells, mem, cap, s, k) == GoState([], marked, overflow);
    SureRounds(shells, mem, u, n, f - 1, m0, cap, s, k);
    SureEnd(shells, mem, u, f - 1, m0, cap, marked, overflow);
  }
}
