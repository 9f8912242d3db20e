/** Heaps on which go does overflow, and heaps on which it loses an object, for every size of stack: the
    bounds of Capacity are exact. */
module Loss {
  import opened Lists
  import opened Objects
  import opened GoSpec
  import opened Capacity

  // ---------------------------------------------------------------- objects with f fields in a row

  function RowOffsets(f: nat): seq<int> { seq(f, j => 8 * j) }

  /** The shell of a class whose objects are f pointers and nothing else. */
  function RowShell(f: nat): Shell { Shell(8 * f, RowOffsets(f)) }

  lemma RowShellOk(f: nat)
    ensures ShellOk(RowShell(f))
  {
  }

  /** The fields of a single such object are the words behind its meta. */
  lemma RowScan(shells: Shells, d: Payload, f: nat)
    requires MetaOk(shells, d) && shells[d[1]] == RowShell(f) && Value(d[2]) == 1
    ensures |ScanSeq(shells, d)| == f && forall j :: 0 <= j < f ==> ScanSeq(shells, d)[j] == 3 + j
    ensures f + 4 <= |d|
  {
    var sh := RowShell(f);
    RowInOrder(sh.offsets, 0);
    assert RowsSeq(sh, 0, 1) == OffsetSeq(sh.offsets, 0) + RowsSeq(sh, 8 * f, 0) == OffsetSeq(sh.offsets, 0);
  }

  /** The object's pointers are ts, and null from there on. */
  ghost predicate PointsTo(d: Payload, ts: seq<int>, f: nat) {
    && |ts| <= f && f + 3 <= |d|
    && forall k :: 3 <= k < f + 3 ==>
         if k - 3 < |ts| then d[k] == WordTo(ts[k - 3], 0) && !IsNullWord(d[k]) else IsNullWord(d[k])
  }

  lemma {:induction false} TargetsFrom(d: Payload, ks: seq<int>, ts: seq<int>)
    requires |ts| <= |ks| && forall j :: 0 <= j < |ks| ==> 0 <= ks[j] < |d|
    requires forall j :: 0 <= j < |ts| ==> d[ks[j]] == WordTo(ts[j], 0) && !IsNullWord(d[ks[j]])
    requires forall j :: |ts| <= j < |ks| ==> IsNullWord(d[ks[j]])
    ensures Targets(d, ks) == ts
  {
    if ks != [] {
      var rest, later := ks[1..], if ts == [] then [] else ts[1..];
      assert forall j :: 0 <= j < |rest| ==> rest[j] == ks[j + 1];
      assert forall j :: 0 <= j < |later| ==> later[j] == ts[j + 1];
      TargetsFrom(d, rest, later);
      if ts == [] {
        assert Targets(d, ks) == [] + later;
      } else {
        assert TargetOf(d[ks[0]]) == ts[0] && Targets(d, ks) == [ts[0]] + later;
      }
    }
  }

  lemma RowOut(shells: Shells, mem: Memory, v: int, ts: seq<int>, f: nat)
    requires v in mem && MetaOk(shells, mem[v]) && shells[mem[v][1]] == RowShell(f) && Value(mem[v][2]) == 1
    requires PointsTo(mem[v], ts, f)
    ensures OutOf(shells, mem, v) == ts && |ScanSeq(shells, mem[v])| == f
  {
    RowScan(shells, mem[v], f);
    TargetsFrom(mem[v], ScanSeq(shells, mem[v]), ts);
  }

  // ---------------------------------------------------------------- the ladder

  function Copies(z: int, k: nat): seq<int> { seq(k, _ => z) }

  /** What rung i of a ladder of m + 1 rungs points to: g times the block after the last rung, and
      once the next rung, or at the last one y. */
  function Rung(bs: seq<int>, m: nat, g: nat, y: int, i: nat): seq<int>
    requires m + 1 < |bs|
  {
    if i <= m then Copies(bs[m + 1], g) + [if i < m then bs[i + 1] else y] else []
  }

  /** bs are different objects; the first m + 1 of them are the rungs, the others point nowhere. */
  ghost predicate Ladder(shells: Shells, mem: Memory, bs: seq<int>, m: nat, g: nat, y: int) {
    && NoDup(bs) && m + 1 < |bs|
    && forall i :: 0 <= i < |bs| ==> OnLadder(shells, mem, bs, m, g, y, i)
  }

  ghost predicate OnLadder(shells: Shells, mem: Memory, bs: seq<int>, m: nat, g: nat, y: int, i: int)
    requires m + 1 < |bs| && 0 <= i < |bs|
  {
    bs[i] in mem && MetaOk(shells, mem[bs[i]]) && OutOf(shells, mem, bs[i]) == Rung(bs, m, g, y, i)
  }

  function Times(i: nat, g: nat): nat { i * g }

  /** Pushing one unmarked object again and again. */
  lemma {:induction false} PushCopies(z: int, k: nat, marked: set<int>, cap: nat, j: nat)
    requires z !in marked && j <= cap
    ensures Pushes(Copies(z, k), marked, cap, Scan(Copies(z, j), false))
         == Scan(Copies(z, if j + k <= cap then j + k else cap), j + k > cap)
    decreases k
  {
    if k > 0 {
      assert Copies(z, k)[1..] == Copies(z, k - 1);
      if j < cap {
        assert Copies(z, j) + [z] == Copies(z, j + 1);
        PushCopies(z, k - 1, marked, cap, j + 1);
      } else {
        DropCopies(z, k - 1, marked, cap);
      }
    }
  }

  lemma {:induction false} DropCopies(z: int, k: nat, marked: set<int>, cap: nat)
    requires z !in marked
    ensures Pushes(Copies(z, k), marked, cap, Scan(Copies(z, cap), true)) == Scan(Copies(z, cap), true)
    decreases k
  {
    if k > 0 {
      assert Copies(z, k)[1..] == Copies(z, k - 1);
      DropCopies(z, k - 1, marked, cap);
    }
  }

  function Start(root: int, m0: set<int>): GoState { GoState([root], m0, false) }

  /** The stack at rung i: i * g copies, and the rung. */
  ghost function AtRung(bs: seq<int>, m: nat, g: nat, m0: set<int>, i: nat): GoState
    requires i <= m && m + 1 < |bs|
  {
    GoState(Copies(bs[m + 1], Times(i, g)) + [bs[i]], m0 + Elems(bs[..i]), false)
  }

  /** The stack after the ladder, with k copies left and the marks of the first n blocks. */
  ghost function Past(bs: seq<int>, m: nat, m0: set<int>, n: nat, k: nat): GoState
    requires m + 1 < |bs| && n <= |bs|
  {
    GoState(Copies(bs[m + 1], k), m0 + Elems(bs[..n]), true)
  }

  lemma NextTimes(i: nat, m: nat, g: nat)
    requires i <= m
    ensures Times(i, g) + g == Times(i + 1, g) && Times(i, g) <= Times(m, g)
  {
    assert m * g == i * g + (m - i) * g;
  }

  lemma UpTo(bs: seq<int>, i: nat, m0: set<int>)
    requires i < |bs|
    ensures m0 + Elems(bs[..i]) + {bs[i]} == m0 + Elems(bs[..i + 1])
  {
    assert bs[..i + 1] == bs[..i] + [bs[i]];
    ElemsJoin(bs[..i], [bs[i]]);
  }

  lemma Apart(bs: seq<int>, m0: set<int>, i: nat, j: nat)
    requires NoDup(bs) && i <= j < |bs| && m0 !! Elems(bs)
    ensures bs[j] !in m0 + Elems(bs[..i])
  {
    ElemsHas(bs, j);
  }

  lemma RungPushes(z: int, j: nat, g: nat, next: int, marked: set<int>, cap: nat)
    requires z !in marked && next !in marked && j <= cap
    ensures Pushes(Copies(z, g) + [next], marked, cap, Scan(Copies(z, j), false))
         == if j + g < cap then Scan(Copies(z, j + g) + [next], false) else Scan(Copies(z, cap), true)
  {
    hide Copies;
    var s := Scan(Copies(z, j), false);
    PushesConcat(Copies(z, g), [next], marked, cap, s);
    PushCopies(z, g, marked, cap, j);
    OneMorePush(next, marked, cap, Pushes(Copies(z, g), marked, cap, s));
    CopiesLength(z, cap);
    CopiesLength(z, j + g);
  }

  /** A rung comes off the stack: its copies are pushed as far as they fit, then its last target. */
  lemma RungRound(shells: Shells, mem: Memory, bs: seq<int>, m: nat, g: nat, y: int, cap: nat, m0: set<int>, i: nat,
                  next: int)
    requires Ladder(shells, mem, bs, m, g, y) && i <= m && m0 !! Elems(bs) && Times(i, g) <= cap
    requires next == (if i < m then bs[i + 1] else y) && next in bs[i + 1..]
    ensures var k := Times(i, g) + g;
            GoRound(shells, mem, cap, AtRung(bs, m, g, m0, i)) ==
              if k < cap then GoState(Copies(bs[m + 1], k) + [next], m0 + Elems(bs[..i + 1]), false)
              else Past(bs, m, m0, i + 1, cap)
  {
    hide *;
    RungFacts(shells, mem, bs, m, g, y, m0, i, next);
    var z, marked := bs[m + 1], m0 + Elems(bs[..i + 1]);
    RoundIs(shells, mem, cap, Copies(z, Times(i, g)), bs[i], m0 + Elems(bs[..i]), false);
    RungPushes(z, Times(i, g), g, next, marked, cap);
    PastIs(bs, m, m0, i + 1, cap);
  }

  lemma RungFacts(shells: Shells, mem: Memory, bs: seq<int>, m: nat, g: nat, y: int, m0: set<int>, i: nat, next: int)
    requires Ladder(shells, mem, bs, m, g, y) && i <= m && m0 !! Elems(bs)
    requires next == (if i < m then bs[i + 1] else y) && next in bs[i + 1..]
    ensures m + 1 < |bs| && bs[i] in mem && MetaOk(shells, mem[bs[i]])
    ensures OutOf(shells, mem, bs[i]) == Copies(bs[m + 1], g) + [next]
    ensures AtRung(bs, m, g, m0, i) == GoState(Copies(bs[m + 1], Times(i, g)) + [bs[i]], m0 + Elems(bs[..i]), false)
    ensures var marked := m0 + Elems(bs[..i + 1]);
      m0 + Elems(bs[..i]) + {bs[i]} == marked && bs[m + 1] !in marked && next !in marked
  {
    assert OnLadder(shells, mem, bs, m, g, y, i);
    UpTo(bs, i, m0);
    Apart(bs, m0, i + 1, m + 1);
    var j :| 0 <= j < |bs| - (i + 1) && bs[i + 1..][j] == next;
    Apart(bs, m0, i + 1, i + 1 + j);
  }

  lemma PastIs(bs: seq<int>, m: nat, m0: set<int>, n: nat, k: nat)
    requires m + 1 < |bs| && n <= |bs|
    ensures Past(bs, m, m0, n, k) == GoState(Copies(bs[m + 1], k), m0 + Elems(bs[..n]), true)
  {
  }

  lemma RungIs(bs: seq<int>, m: nat, g: nat, m0: set<int>, i: nat)
    requires 1 <= i <= m && m + 1 < |bs| && Times(i - 1, g) + g == Times(i, g)
    ensures AtRung(bs, m, g, m0, i) == GoState(Copies(bs[m + 1], Times(i - 1, g) + g) + [bs[i]], m0 + Elems(bs[..i]),
            false)
  {
  }

  lemma CopiesLength(z: int, k: nat)
    ensures |Copies(z, k)| == k
  {
  }

  lemma OneMorePush(x: int, marked: set<int>, cap: nat, s: Scan)
    requires x !in marked
    ensures Pushes([x], marked, cap, s) == if |s.content| >= cap then s.(dropped := true)
            else s.(content := s.content + [x])
  {
    assert [x][1..] == [];
  }

  lemma NextRound(shells: Shells, mem: Memory, cap: nat, s: GoState, n: nat)
    ensures GoRounds(shells, mem, cap, s, n + 1) == GoRound(shells, mem, cap, GoRounds(shells, mem, cap, s, n))
  {
  }

  lemma ClimbStep(shells: Shells, mem: Memory, bs: seq<int>, m: nat, g: nat, y: int, cap: nat, m0: set<int>,
                  s: GoState, i: nat)
    requires Ladder(shells, mem, bs, m, g, y) && 1 <= i <= m && Times(m, g) < cap && m0 !! Elems(bs)
    requires GoRounds(shells, mem, cap, s, i - 1) == AtRung(bs, m, g, m0, i - 1)
    ensures GoRounds(shells, mem, cap, s, i) == AtRung(bs, m, g, m0, i)
  {
    assert bs[i..][0] == bs[i];
    NextTimes(i - 1, m, g);
    NextTimes(i, m, g);
    RungIs(bs, m, g, m0, i);
    hide NoDup, Elems, Times, GoRound, AtRung, OnLadder, Copies, Past;
    RungRound(shells, mem, bs, m, g, y, cap, m0, i - 1, bs[i]);
    NextRound(shells, mem, cap, s, i - 1);
  }

  /** Climbing: g copies more at every rung. */
  lemma {:induction false} Climb(shells: Shells, mem: Memory, bs: seq<int>, m: nat, g: nat, y: int, cap: nat,
                    m0: set<int>, i: nat)
    requires Ladder(shells, mem, bs, m, g, y) && i <= m && Times(m, g) < cap && m0 !! Elems(bs)
    ensures GoRounds(shells, mem, cap, Start(bs[0], m0), i) == AtRung(bs, m, g, m0, i)
  {
    if i == 0 {
      assert Copies(bs[m + 1], 0) + [bs[0]] == [bs[0]] && m0 + Elems(bs[..0]) == m0;
    } else {
      hide NoDup, Elems, Times, GoRound, GoRounds, AtRung, OnLadder, Start, Copies, Past;
      Climb(shells, mem, bs, m, g, y, cap, m0, i - 1);
      ClimbStep(shells, mem, bs, m, g, y, cap, m0, Start(bs[0], m0), i);
    }
  }

  /** At the last rung the copies fill the stack, and y is dropped. */
  lemma Top(shells: Shells, mem: Memory, bs: seq<int>, m: nat, g: nat, y: int, cap: nat, m0: set<int>)
    requires Ladder(shells, mem, bs, m, g, y) && Times(m, g) < cap <= Times(m + 1, g) && m0 !! Elems(bs)
             && y in bs[m + 1..]
    ensures GoRounds(shells, mem, cap, Start(bs[0], m0), m + 1) == Past(bs, m, m0, m + 1, cap)
  {
    hide Ladder, NoDup, Elems, Times, GoRound;
    Climb(shells, mem, bs, m, g, y, cap, m0, m);
    NextTimes(m, m, g);
    RungRound(shells, mem, bs, m, g, y, cap, m0, m, y);
  }

  /** A copy comes off the stack: the block after the ladder points nowhere. */
  lemma CopyRound(shells: Shells, mem: Memory, bs: seq<int>, m: nat, g: nat, y: int, cap: nat, m0: set<int>, n: nat,
                  k: nat)
    requires Ladder(shells, mem, bs, m, g, y) && k > 0 && (n == m + 1 || n == m + 2)
    ensures GoRound(shells, mem, cap, Past(bs, m, m0, n, k)) == Past(bs, m, m0, m + 2, k - 1)
  {
    var z := bs[m + 1];
    assert OnLadder(shells, mem, bs, m, g, y, m + 1);
    assert Copies(z, k) == Copies(z, k - 1) + [z];
    RoundIs(shells, mem, cap, Copies(z, k - 1), z, m0 + Elems(bs[..n]), true);
    UpTo(bs, m + 1, m0);
    if n == m + 2 {
      ElemsHas(bs[..n], m + 1);
      assert m0 + Elems(bs[..n]) + {z} == m0 + Elems(bs[..n]);
    }
  }

  /** Down again: the copies come off one by one. */
  lemma {:induction false} Descend(shells: Shells, mem: Memory, bs: seq<int>, m: nat, g: nat, y: int, cap: nat,
                    m0: set<int>, k: nat)
    requires Ladder(shells, mem, bs, m, g, y) && Times(m, g) < cap <= Times(m + 1, g) && m0 !! Elems(bs)
             && y in bs[m + 1..]
    requires 1 <= k <= cap
    ensures GoRounds(shells, mem, cap, Start(bs[0], m0), m + 1 + k) == Past(bs, m, m0, m + 2, cap - k)
  {
    hide Ladder, NoDup, Elems, Times, GoRound, Past, OnLadder;
    if k == 1 {
      Top(shells, mem, bs, m, g, y, cap, m0);
      LadderLong(shells, mem, bs, m, g, y);
      CopyRound(shells, mem, bs, m, g, y, cap, m0, m + 1, cap);
    } else {
      Descend(shells, mem, bs, m, g, y, cap, m0, k - 1);
      CopyRound(shells, mem, bs, m, g, y, cap, m0, m + 2, cap - k + 1);
    }
  }

  lemma LadderLong(shells: Shells, mem: Memory, bs: seq<int>, m: nat, g: nat, y: int)
    requires Ladder(shells, mem, bs, m, g, y)
    ensures m + 2 <= |bs|
  {
  }

  /** go on the first rung overflows, and marks the rungs and the block after them only. */
  lemma LadderRun(shells: Shells, mem: Memory, bs: seq<int>, m: nat, g: nat, y: int, cap: nat, m0: set<int>)
    requires Ladder(shells, mem, bs, m, g, y) && Times(m, g) < cap <= Times(m + 1, g) && m0 !! Elems(bs)
             && y in bs[m + 1..]
    ensures GoExact(shells, mem, cap, bs[0], m0, m0 + Elems(bs[..m + 2]), true)
  {
    Descend(shells, mem, bs, m, g, y, cap, m0, cap);
    hide Ladder, NoDup, Elems, Times, GoRounds;
    assert Past(bs, m, m0, m + 2, 0) == GoState([], m0 + Elems(bs[..m + 2]), true);
  }

  // ---------------------------------------------------------------- the star

  /** bs[0] points to all the others, which point nowhere. */
  ghost predicate Star(shells: Shells, mem: Memory, bs: seq<int>) {
    && NoDup(bs) && |bs| >= 1
    && forall i :: 0 <= i < |bs| ==>
         bs[i] in mem && MetaOk(shells, mem[bs[i]]) && OutOf(shells, mem, bs[i]) == if i == 0 then bs[1..] else []
  }

  lemma TakeOne(s: seq<int>, ts: seq<int>, n: nat)
    requires 1 <= n <= |ts|
    ensures s + [ts[0]] + ts[1..][..n - 1] == s + ts[..n]
  {
    assert ts[..n] == [ts[0]] + ts[1..][..n - 1];
  }

  /** Unmarked targets are pushed as far as they fit. */
  lemma {:induction false} PushFresh(ts: seq<int>, marked: set<int>, cap: nat, s: Scan)
    requires |s.content| <= cap && forall j :: 0 <= j < |ts| ==> ts[j] !in marked
    ensures Pushes(ts, marked, cap, s) ==
              if |s.content| + |ts| <= cap then Scan(s.content + ts, s.dropped)
              else Scan(s.content + ts[..cap - |s.content|], true)
  {
    if ts == [] {
      assert s.content + ts == s.content;
    } else if |s.content| == cap {
      PushFresh(ts[1..], marked, cap, s.(dropped := true));
      assert s.content + ts[..0] == s.content && s.content + ts[1..][..0] == s.content && s.content + [] == s.content;
    } else {
      var c := s.content + [ts[0]];
      PushFresh(ts[1..], marked, cap, s.(content := c));
      assert c + ts[1..] == s.content + ts;
      if |s.content| + |ts| > cap {
        TakeOne(s.content, ts, cap - |s.content|);
      }
    }
  }

  /** The stack with k leaves left, once the first n of bs and the leaves taken off are marked. */
  ghost function Leaves(bs: seq<int>, cap: nat, m0: set<int>, k: nat): GoState
    requires k <= cap < |bs|
  {
    GoState(bs[1..k + 1], m0 + {bs[0]} + Elems(bs[k + 1..cap + 1]), true)
  }

  lemma StarFirst(shells: Shells, mem: Memory, bs: seq<int>, cap: nat, m0: set<int>)
    requires Star(shells, mem, bs) && |bs| >= cap + 2 && m0 !! Elems(bs)
    ensures GoRound(shells, mem, cap, Start(bs[0], m0)) == Leaves(bs, cap, m0, cap)
  {
    hide *;
    AtRoot(shells, mem, bs, m0);
    assert [] + [bs[0]] == [bs[0]];
    RoundIs(shells, mem, cap, [], bs[0], m0, false);
    PushFresh(bs[1..], m0 + {bs[0]}, cap, Scan([], false));
    AllLeaves(bs, cap, m0);
  }

  lemma AtRoot(shells: Shells, mem: Memory, bs: seq<int>, m0: set<int>)
    requires Star(shells, mem, bs) && m0 !! Elems(bs)
    ensures bs[0] in mem && MetaOk(shells, mem[bs[0]]) && OutOf(shells, mem, bs[0]) == bs[1..]
    ensures Start(bs[0], m0) == GoState([bs[0]], m0, false)
    ensures forall j :: 0 <= j < |bs[1..]| ==> bs[1..][j] !in m0 + {bs[0]}
  {
    forall j | 0 <= j < |bs[1..]|
      ensures bs[1..][j] !in m0 + {bs[0]}
    {
      ElemsHas(bs, j + 1);
    }
  }

  lemma AllLeaves(bs: seq<int>, cap: nat, m0: set<int>)
    requires |bs| >= cap + 2
    ensures Leaves(bs, cap, m0, cap) == GoState([] + bs[1..][..cap], m0 + {bs[0]}, true)
  {
    assert [] + bs[1..][..cap] == bs[1..cap + 1] && bs[cap + 1..cap + 1] == [];
    assert m0 + {bs[0]} + Elems([]) == m0 + {bs[0]};
  }

  lemma NextLeaf(bs: seq<int>, cap: nat, m0: set<int>, k: nat)
    requires |bs| >= cap + 2 && 1 <= k <= cap
    ensures Leaves(bs, cap, m0, k) == GoState(bs[1..k] + [bs[k]], m0 + {bs[0]} + Elems(bs[k + 1..cap + 1]), true)
    ensures Leaves(bs, cap, m0, k - 1) == GoState(bs[1..k], m0 + {bs[0]} + Elems(bs[k + 1..cap + 1]) + {bs[k]}, true)
  {
    assert bs[1..k + 1] == bs[1..k] + [bs[k]] && bs[k..cap + 1] == [bs[k]] + bs[k + 1..cap + 1];
    ElemsJoin([bs[k]], bs[k + 1..cap + 1]);
    assert Elems([bs[k]]) == {bs[k]};
    assert Elems(bs[k..cap + 1]) == {bs[k]} + Elems(bs[k + 1..cap + 1]);
  }

  lemma LeafRound(shells: Shells, mem: Memory, bs: seq<int>, cap: nat, m0: set<int>, k: nat)
    requires Star(shells, mem, bs) && |bs| >= cap + 2 && 1 <= k <= cap
    ensures GoRound(shells, mem, cap, Leaves(bs, cap, m0, k)) == Leaves(bs, cap, m0, k - 1)
  {
    NextLeaf(bs, cap, m0, k);
    assert OutOf(shells, mem, bs[k]) == [];
    hide NoDup, Elems, OutOf, MetaOk, GoRound, Leaves;
    RoundIs(shells, mem, cap, bs[1..k], bs[k], m0 + {bs[0]} + Elems(bs[k + 1..cap + 1]), true);
  }

  lemma {:induction false} StarRounds(shells: Shells, mem: Memory, bs: seq<int>, cap: nat, m0: set<int>, k: nat)
    requires Star(shells, mem, bs) && |bs| >= cap + 2 && m0 !! Elems(bs) && k <= cap
    ensures GoRounds(shells, mem, cap, Start(bs[0], m0), k + 1) == Leaves(bs, cap, m0, cap - k)
  {
    hide Star, Elems, GoRound, Leaves, Start;
    NextRound(shells, mem, cap, Start(bs[0], m0), k);
    if k == 0 {
      StarFirst(shells, mem, bs, cap, m0);
    } else {
      StarRounds(shells, mem, bs, cap, m0, k - 1);
      LeafRound(shells, mem, bs, cap, m0, cap - k + 1);
    }
  }

  /** An object with more pointers than the stack has entries, to objects that go has not seen, loses
      all but the first of them. */
  lemma StarRun(shells: Shells, mem: Memory, bs: seq<int>, cap: nat, m0: set<int>)
    requires Star(shells, mem, bs) && |bs| >= cap + 2 && m0 !! Elems(bs)
    ensures GoExact(shells, mem, cap, bs[0], m0, m0 + Elems(bs[..cap + 1]), true)
    ensures forall i :: cap < i < |bs| ==> bs[i] in Succ(shells, mem[bs[0]]) && bs[i] !in m0 + Elems(bs[..cap + 1])
    ensures Loses(shells, mem, Elems(bs), m0 + Elems(bs[..cap + 1]))
  {
    var marked := m0 + Elems(bs[..cap + 1]);
    StarRounds(shells, mem, bs, cap, m0, cap);
    LastLeaf(bs, cap, m0);
    assert GoExact(shells, mem, cap, bs[0], m0, marked, true);
    hide *;
    AtRoot(shells, mem, bs, m0);
    StarOut(shells, mem, bs);
    forall i | cap < i < |bs|
      ensures bs[i] !in marked
    {
      StarApart(shells, mem, bs, m0, cap + 1, i);
    }
    LosesOne(shells, mem, bs, marked, cap + 1) by { StarApart(shells, mem, bs, m0, cap + 1, 0); }
  }

  lemma LastLeaf(bs: seq<int>, cap: nat, m0: set<int>)
    requires |bs| >= cap + 2
    ensures Leaves(bs, cap, m0, 0) == GoState([], m0 + Elems(bs[..cap + 1]), true)
  {
    assert bs[..cap + 1] == [bs[0]] + bs[1..cap + 1];
    ElemsJoin([bs[0]], bs[1..cap + 1]);
    assert Elems([bs[0]]) == {bs[0]} && bs[1..1] == [];
  }

  lemma StarOut(shells: Shells, mem: Memory, bs: seq<int>)
    requires Star(shells, mem, bs)
    ensures forall i :: 0 < i < |bs| ==> bs[i] in Succ(shells, mem[bs[0]])
  {
    OutIsSucc(shells, mem, bs[0]);
    hide OutOf, MetaOk, NoDup;
    forall i | 0 < i < |bs|
      ensures bs[i] in Succ(shells, mem[bs[0]])
    {
      assert bs[1..][i - 1] == bs[i];
      assert bs[i] in OutOf(shells, mem, bs[0]);
    }
  }

  lemma StarApart(shells: Shells, mem: Memory, bs: seq<int>, m0: set<int>, k: nat, i: nat)
    requires Star(shells, mem, bs) && m0 !! Elems(bs) && 1 <= k <= |bs| && i < |bs|
    ensures i >= k ==> bs[i] !in m0 + Elems(bs[..k])
    ensures bs[0] in m0 + Elems(bs[..k]) && bs[0] in Elems(bs)
  {
    if i >= k { Apart(bs, m0, k, i); }
    ElemsHas(bs[..k], 0);
    ElemsHas(bs, 0);
  }

  lemma LosesOne(shells: Shells, mem: Memory, bs: seq<int>, marked: set<int>, i: nat)
    requires 0 < i < |bs| && bs[0] in marked * Elems(bs) && bs[0] in mem && MetaOk(shells, mem[bs[0]])
    requires bs[i] in Succ(shells, mem[bs[0]]) && bs[i] !in marked
    ensures Loses(shells, mem, Elems(bs), marked)
  {
    var x, y := bs[0], bs[i];
    assert x in marked * Elems(bs) && y in Succ(shells, mem[x]) && y !in marked;
  }

  // ---------------------------------------------------------------- the bounds are exact

  /** For some heap of n unmarked objects with at most f fields each, go reports overflow. */
  ghost predicate CanOverflow(cap: nat, n: nat, f: nat) {
    exists shells: Shells, mem: Memory, u: set<int>, m0: set<int>, root: int, marked: set<int> ::
      GoHeap(shells, mem, u, m0, n, f) && root in u && GoExact(shells, mem, cap, root, m0, marked, true)
  }

  /** For some such heap a marked object has an unmarked successor when go ends. */
  ghost predicate CanLose(cap: nat, n: nat, f: nat) {
    exists shells: Shells, mem: Memory, u: set<int>, m0: set<int>, root: int, marked: set<int>, overflow: bool ::
      GoHeap(shells, mem, u, m0, n, f) && root in u && GoExact(shells, mem, cap, root, m0, marked, overflow)
      && Loses(shells, mem, u, marked)
  }

  const ROW: Word := Word(4096, 0)

  function RowPayload(f: nat, ts: seq<int>): Payload
    requires |ts| <= f
  {
    [ZERO, ROW, Word(0, 1)] + seq(f, j requires 0 <= j < f => if j < |ts| then WordTo(ts[j], 0) else ZERO) + [ZERO]
  }

  /** Blocks named 1 to n. */
  function Names(n: nat): (s: seq<int>)
    ensures |s| == n && forall i :: 0 <= i < n ==> s[i] == i + 1
  {
    seq(n, i => i + 1)
  }

  function LadderShells(g: nat): Shells { map[ROW := RowShell(g + 1)] }

  function LadderMem(n: nat, m: nat, g: nat, y: int): Memory
    requires m + 1 < n
  {
    map b | b in Names(n) :: RowPayload(g + 1, Rung(Names(n), m, g, y, b - 1))
  }

  lemma {:induction false} CountElems(s: seq<int>)
    requires NoDup(s)
    ensures |Elems(s)| == |s|
  {
    if s != [] {
      var r, x := s[..|s| - 1], s[|s| - 1];
      CountElems(r);
      NewAt(s, |s| - 1);
      LastElem(s);
      hide NoDup, Elems;
      assert |Elems(r) + {x}| == |Elems(r)| + 1;
    }
  }

  lemma LastElem(s: seq<int>)
    requires s != [] && s[|s| - 1] !in s[..|s| - 1]
    ensures Elems(s) == Elems(s[..|s| - 1]) + {s[|s| - 1]} && s[|s| - 1] !in Elems(s[..|s| - 1])
  {
    assert s == s[..|s| - 1] + [s[|s| - 1]];
    ElemsJoin(s[..|s| - 1], [s[|s| - 1]]);
  }

  lemma LadderObject(n: nat, m: nat, g: nat, y: int, i: nat)
    requires m + 1 < n && y in Names(n) && i < n
    ensures var shells, mem, b := LadderShells(g), LadderMem(n, m, g, y), Names(n)[i];
      OnLadder(shells, mem, Names(n), m, g, y, i) && SmallObject(shells, mem, Elems(Names(n)), b, g + 1)
  {
    var shells, mem, bs := LadderShells(g), LadderMem(n, m, g, y), Names(n);
    var b, ts := bs[i], Rung(bs, m, g, y, i);
    RungInside(bs, m, g, y, i);
    assert b in bs;
    forall j | 0 <= j < |ts|
      ensures ts[j] >= 1 && ts[j] in bs
    {
      var t := ts[j];
      assert t in ts;
    }
    assert mem[b] == RowPayload(g + 1, ts);
    hide LadderShells, LadderMem, RowPayload, Rung, OutOf, Succ, PayloadOk, MetaOk, ScanSeq;
    RowObject(shells, mem, b, ts, g + 1);
    OutIsSucc(shells, mem, b);
    forall t | t in Succ(shells, mem[b])
      ensures t in Elems(bs)
    {
      assert t in ts;
    }
  }

  lemma NamesOk(n: nat)
    ensures NoDup(Names(n)) && |Elems(Names(n))| == n && |Elems(Names(n)) - {}| == n
    ensures forall b :: b in Elems(Names(n)) ==> 1 <= b <= n && b == Names(n)[b - 1]
  {
    CountElems(Names(n));
    assert Elems(Names(n)) - {} == Elems(Names(n));
  }

  /** The ladder as a heap. */
  lemma LadderHeap(n: nat, m: nat, g: nat, y: int)
    requires m + 1 < n && y in Names(n)
    ensures Ladder(LadderShells(g), LadderMem(n, m, g, y), Names(n), m, g, y)
    ensures GoHeap(LadderShells(g), LadderMem(n, m, g, y), Elems(Names(n)), {}, n, g + 1)
  {
    NamesOk(n);
    hide LadderShells, LadderMem, NoDup, OutOf, Rung, Elems, ScanSeq, Succ, PayloadOk, GoHeap;
    forall i | 0 <= i < n
      ensures OnLadder(LadderShells(g), LadderMem(n, m, g, y), Names(n), m, g, y, i)
      ensures SmallObject(LadderShells(g), LadderMem(n, m, g, y), Elems(Names(n)), Names(n)[i], g + 1)
    {
      LadderObject(n, m, g, y, i);
    }
    SmallHeap(LadderShells(g), LadderMem(n, m, g, y), Names(n), g + 1);
  }

  ghost predicate SmallObject(shells: Shells, mem: Memory, u: set<int>, b: int, f: nat) {
    b in mem && PayloadOk(shells, mem[b]) && Succ(shells, mem[b]) <= u && |ScanSeq(shells, mem[b])| <= f
  }

  lemma SmallHeap(shells: Shells, mem: Memory, bs: seq<int>, f: nat)
    requires NoDup(bs) && forall i :: 0 <= i < |bs| ==> SmallObject(shells, mem, Elems(bs), bs[i], f)
    ensures GoHeap(shells, mem, Elems(bs), {}, |bs|, f)
  {
    CountElems(bs);
    assert Elems(bs) - {} == Elems(bs);
    hide NoDup, ScanSeq, Succ;
    forall b | b in Elems(bs)
      ensures SmallObject(shells, mem, Elems(bs), b, f)
    {
      var i :| 0 <= i < |bs| && bs[i] == b;
    }
  }

  lemma RungInside(bs: seq<int>, m: nat, g: nat, y: int, i: nat)
    requires m + 1 < |bs| && i < |bs| && y in bs
    ensures |Rung(bs, m, g, y, i)| <= g + 1 && forall t :: t in Rung(bs, m, g, y, i) ==> t in bs
  {
  }

  lemma RowObject(shells: Shells, mem: Memory, b: int, ts: seq<int>, f: nat)
    requires |ts| <= f && b in mem && mem[b] == RowPayload(f, ts) && ROW in shells && shells[ROW] == RowShell(f)
    requires forall j :: 0 <= j < |ts| ==> ts[j] >= 1
    ensures MetaOk(shells, mem[b]) && PayloadOk(shells, mem[b]) && OutOf(shells, mem, b) == ts
            && |ScanSeq(shells, mem[b])| == f
  {
    var d := mem[b];
    RowShellOk(f);
    assert MetaOk(shells, d);
    assert PointsTo(d, ts, f);
    RowOut(shells, mem, b, ts, f);
    FieldsInPayload(shells, d);
    RowScan(shells, d, f);
    forall k | k in Fields(shells, d) && 0 <= k < |d|
      ensures !IsComposite(d[k])
    {
      ScansFields(shells, d, k);
    }
  }

  /** The rung on which a stack of cap entries fills up. */
  function LastRung(cap: nat, g: nat): nat
    requires cap >= 1 && g >= 1
  {
    (cap - 1) / g
  }

  lemma FullAtLast(cap: nat, g: nat)
    requires cap >= 1 && g >= 1
    ensures var m := LastRung(cap, g); Times(m, g) < cap <= Times(m + 1, g) && forall k: nat :: cap <= k * g ==> m < k
  {
    var m := LastRung(cap, g);
    assert m * g <= cap - 1 < m * g + g;
    NextTimes(m, m, g);
    forall k: nat | cap <= k * g
      ensures m < k
    {
      if k <= m { NextTimes(k, m, g); }
    }
  }

  lemma Overflowing(cap: nat, n: nat, f: nat)
    requires cap >= 1 && f >= 1 && cap <= (n - 1) * (f - 1)
    ensures CanOverflow(cap, n, f)
  {
    var g := f - 1;
    assert n >= 2 && g >= 1;
    var m := LastRung(cap, g);
    FullAtLast(cap, g);
    assert cap <= (n - 1) * g && m < n - 1;
    var shells, bs, y := LadderShells(g), Names(n), Names(n)[m + 1];
    var mem := LadderMem(n, m, g, y);
    LadderHeap(n, m, g, y);
    assert bs[m + 1..][0] == y && {} !! Elems(bs);
    LadderRun(shells, mem, bs, m, g, y, cap, {});
    ElemsHas(bs, 0);
    assert GoHeap(shells, mem, Elems(bs), {}, n, f) && bs[0] in Elems(bs);
  }

  lemma Losing(cap: nat, n: nat, f: nat)
    requires cap >= 1 && f >= 1 && cap <= (n - 2) * (f - 1)
    ensures CanLose(cap, n, f)
  {
    var g := f - 1;
    assert n >= 3 && g >= 1;
    var m := LastRung(cap, g);
    FullAtLast(cap, g);
    assert cap <= (n - 2) * g && m < n - 2;
    var shells, bs, y := LadderShells(g), Names(n), Names(n)[m + 2];
    var mem, marked := LadderMem(n, m, g, y), {} + Elems(bs[..m + 2]);
    LadderHeap(n, m, g, y);
    assert bs[m + 1..][1] == y && {} !! Elems(bs);
    LadderRun(shells, mem, bs, m, g, y, cap, {});
    ElemsHas(bs, 0);
    LadderLoses(shells, mem, bs, m, g, y, {}, m + 2);
    assert GoHeap(shells, mem, Elems(bs), {}, n, f) && bs[0] in Elems(bs);
  }

  /** With the last target of the top rung beyond the blocks marked, the ladder has lost it. */
  lemma LadderLoses(shells: Shells, mem: Memory, bs: seq<int>, m: nat, g: nat, y: int, m0: set<int>, k: nat)
    requires Ladder(shells, mem, bs, m, g, y) && m0 !! Elems(bs) && m + 2 <= k < |bs| && y == bs[k]
    ensures Loses(shells, mem, Elems(bs), m0 + Elems(bs[..m + 2]))
  {
    var marked := m0 + Elems(bs[..m + 2]);
    assert OnLadder(shells, mem, bs, m, g, y, m);
    var ts := Rung(bs, m, g, y, m);
    assert ts[|ts| - 1] == y;
    OutIsSucc(shells, mem, bs[m]);
    assert y in OutOf(shells, mem, bs[m]) && y in Succ(shells, mem[bs[m]]);
    ElemsHas(bs, m);
    ElemsHas(bs[..m + 2], m);
    Apart(bs, m0, m + 2, k);
    assert bs[m] in marked * Elems(bs);
  }

  /** go can overflow if and only if the stack has at most (n-1)(f-1) entries. */
  lemma OverflowExactly(cap: nat, n: nat, f: nat)
    requires cap >= 1 && f >= 1
    ensures CanOverflow(cap, n, f) <==> cap <= (n - 1) * (f - 1)
  {
    if cap <= (n - 1) * (f - 1) {
      Overflowing(cap, n, f);
    } else {
      forall shells: Shells, mem: Memory, u: set<int>, m0: set<int>, root: int, marked: set<int>
        | GoHeap(shells, mem, u, m0, n, f) && root in u
        ensures !GoExact(shells, mem, cap, root, m0, marked, true)
      {
        if GoExact(shells, mem, cap, root, m0, marked, true) {
          CapacitySuffices(shells, mem, u, n, f, m0, cap, root, marked, true);
        }
      }
    }
  }

  /** go can end with a marked object that has an unmarked successor, so that a caller who drops its
      result loses an object, if and only if the stack has at most (n-2)(f-1) entries. */
  lemma LossExactly(cap: nat, n: nat, f: nat)
    requires cap >= 1 && f >= 1
    ensures CanLose(cap, n, f) <==> cap <= (n - 2) * (f - 1)
  {
    if cap <= (n - 2) * (f - 1) {
      Losing(cap, n, f);
    } else {
      forall shells: Shells, mem: Memory, u: set<int>, m0: set<int>, root: int, marked: set<int>, overflow: bool
        | GoHeap(shells, mem, u, m0, n, f) && root in u && GoExact(shells, mem, cap, root, m0, marked, overflow)
        ensures !Loses(shells, mem, u, marked)
      {
        OverflowHarmless(shells, mem, u, n, f, m0, cap, root, marked, overflow);
      }
    }
  }
}
