/** go as a function: which entries it pushes, in which order, and which it drops. */
module GoSpec {
  import opened Objects

  /** The words go reads in the object at byte `base` of a block, in its order. */
  function OffsetSeq(offsets: seq<int>, base: int): seq<int> {
    if offsets == [] then [] else [FieldAt(base + offsets[0])] + OffsetSeq(offsets[1..], base)
  }

  function RowsSeq(sh: Shell, base: int, n: nat): seq<int>
    decreases n
  {
    if n == 0 then [] else OffsetSeq(sh.offsets, base) + RowsSeq(sh, base + sh.size, n - 1)
  }

  function ScanSeq(shells: Shells, d: Payload): seq<int>
    requires MetaOk(shells, d)
  {
    RowsSeq(shells[d[1]], 0, Value(d[2]))
  }

  datatype Scan = Scan(content: seq<int>, dropped: bool)

  /** One field: skipped if null or marked, dropped if the stack is full, pushed otherwise. */
  function PushField(d: Payload, k: int, marked: set<int>, cap: nat, s: Scan): Scan {
    if !(0 <= k < |d|) || IsNullWord(d[k]) || TargetOf(d[k]) in marked then s
    else if |s.content| >= cap then s.(dropped := true)
    else s.(content := s.content + [TargetOf(d[k])])
  }

  function ScanFields(d: Payload, ks: seq<int>, marked: set<int>, cap: nat, s: Scan): Scan {
    if ks == [] then s else ScanFields(d, ks[1..], marked, cap, PushField(d, ks[0], marked, cap, s))
  }

  lemma {:induction false} ScanConcat(d: Payload, a: seq<int>, b: seq<int>, marked: set<int>, cap: nat, s: Scan)
    ensures ScanFields(d, a + b, marked, cap, s) == ScanFields(d, b, marked, cap, ScanFields(d, a, marked, cap, s))
  {
    if a == [] {
      assert a + b == b;
    } else {
      assert (a + b)[1..] == a[1..] + b;
      ScanConcat(d, a[1..], b, marked, cap, PushField(d, a[0], marked, cap, s));
    }
  }

  datatype GoState = GoState(content: seq<int>, marked: set<int>, overflow: bool)

  /** One round of the loop: pop, mark, scan. */
  function GoRound(shells: Shells, mem: Memory, cap: nat, s: GoState): GoState {
    if s.content == [] then s
    else
      var v, below := s.content[|s.content| - 1], s.content[..|s.content| - 1];
      if v in mem && MetaOk(shells, mem[v]) then
        var marked := s.marked + {v};
        var r := ScanFields(mem[v], ScanSeq(shells, mem[v]), marked, cap, Scan(below, false));
        GoState(r.content, marked, s.overflow || r.dropped)
      else s.(content := below)
  }

  function GoRounds(shells: Shells, mem: Memory, cap: nat, s: GoState, n: nat): GoState {
    if n == 0 then s else GoRound(shells, mem, cap, GoRounds(shells, mem, cap, s, n - 1))
  }

  /** go on root, with these marks before, ends with these marks and this result. */
  ghost predicate GoExact(shells: Shells, mem: Memory, cap: nat, root: int, m0: set<int>, marked: set<int>,
                    overflow: bool) {
    exists n: nat :: GoRounds(shells, mem, cap, GoState([root], m0, false), n) == GoState([], marked, overflow)
  }

  lemma {:induction false} GoStays(shells: Shells, mem: Memory, cap: nat, s: GoState, n: nat, k: nat)
    requires GoRounds(shells, mem, cap, s, n).content == [] && n <= k
    ensures GoRounds(shells, mem, cap, s, k) == GoRounds(shells, mem, cap, s, n)
    decreases k
  {
    if n < k {
      GoStays(shells, mem, cap, s, n, k - 1);
    }
  }

  /** The outcome is determined. */
  lemma GoDetermined(shells: Shells, mem: Memory, cap: nat, root: int, m0: set<int>, m1: set<int>, o1: bool,
                     m2: set<int>, o2: bool)
    requires GoExact(shells, mem, cap, root, m0, m1, o1) && GoExact(shells, mem, cap, root, m0, m2, o2)
    ensures m1 == m2 && o1 == o2
  {
    var s := GoState([root], m0, false);
    var n: nat :| GoRounds(shells, mem, cap, s, n) == GoState([], m1, o1);
    var k: nat :| GoRounds(shells, mem, cap, s, k) == GoState([], m2, o2);
    GoStays(shells, mem, cap, s, n, if n <= k then k else n);
    GoStays(shells, mem, cap, s, k, if n <= k then k else n);
  }

  // ---------------------------------------------------------------- in terms of targets

  /** The blocks that the fields ks of d name, in order and as often as they are named. */
  function Targets(d: Payload, ks: seq<int>): seq<int> {
    if ks == [] then []
    else (if 0 <= ks[0] < |d| && !IsNullWord(d[ks[0]]) then [TargetOf(d[ks[0]])] else []) + Targets(d, ks[1..])
  }

  /** The pushes of a scan over these targets. */
  function Pushes(ts: seq<int>, marked: set<int>, cap: nat, s: Scan): (r: Scan)
    ensures |s.content| <= |r.content|
  {
    if ts == [] then s
    else
      var s' := if ts[0] in marked then s
                else if |s.content| >= cap then s.(dropped := true)
                else s.(content := s.content + [ts[0]]);
      Pushes(ts[1..], marked, cap, s')
  }

  lemma {:induction false} ScanIsPushes(d: Payload, ks: seq<int>, marked: set<int>, cap: nat, s: Scan)
    ensures ScanFields(d, ks, marked, cap, s) == Pushes(Targets(d, ks), marked, cap, s) && |Targets(d, ks)| <= |ks|
  {
    if ks != [] {
      ScanIsPushes(d, ks[1..], marked, cap, PushField(d, ks[0], marked, cap, s));
      var rest := Targets(d, ks[1..]);
      if 0 <= ks[0] < |d| && !IsNullWord(d[ks[0]]) {
        var ts := [TargetOf(d[ks[0]])] + rest;
        assert Targets(d, ks) == ts && ts[0] == TargetOf(d[ks[0]]) && ts[1..] == rest;
        assert Pushes(ts, marked, cap, s) == Pushes(rest, marked, cap, PushField(d, ks[0], marked, cap, s));
      } else {
        assert Targets(d, ks) == [] + rest == rest;
      }
    }
  }

  lemma {:induction false} PushesConcat(a: seq<int>, b: seq<int>, marked: set<int>, cap: nat, s: Scan)
    ensures Pushes(a + b, marked, cap, s) == Pushes(b, marked, cap, Pushes(a, marked, cap, s))
  {
    if a == [] {
      assert a + b == b;
    } else {
      assert (a + b)[1..] == a[1..] + b;
      var s' := if a[0] in marked then s
                else if |s.content| >= cap then s.(dropped := true)
                else s.(content := s.content + [a[0]]);
      PushesConcat(a[1..], b, marked, cap, s');
    }
  }

  /** The targets of the object at v. */
  function OutOf(shells: Shells, mem: Memory, v: int): seq<int> {
    if v in mem && MetaOk(shells, mem[v]) then Targets(mem[v], ScanSeq(shells, mem[v])) else []
  }

  /** A round of go, told by targets. */
  lemma RoundIs(shells: Shells, mem: Memory, cap: nat, below: seq<int>, v: int, marked: set<int>, overflow: bool)
    requires v in mem && MetaOk(shells, mem[v])
    ensures var r := Pushes(OutOf(shells, mem, v), marked + {v}, cap, Scan(below, false));
            GoRound(shells, mem, cap, GoState(below + [v], marked, overflow))
              == GoState(r.content, marked + {v}, overflow || r.dropped)
  {
    assert (below + [v])[..|below|] == below;
    ScanIsPushes(mem[v], ScanSeq(shells, mem[v]), marked + {v}, cap, Scan(below, false));
  }

  // ---------------------------------------------------------------- several traversals

  /** go on each of the roots rs in turn, with the marks ms before each and at the end. */
  ghost predicate GoChain(shells: Shells, mem: Memory, cap: nat, rs: seq<int>, ms: seq<set<int>>, os: seq<bool>) {
    && |ms| == |rs| + 1 && |os| == |rs|
    && forall i :: 0 <= i < |rs| ==> GoExact(shells, mem, cap, rs[i], ms[i], ms[i + 1], os[i])
  }

  /** The marks at the end, and whether any traversal overflowed. */
  ghost predicate GoAll(shells: Shells, mem: Memory, cap: nat, rs: seq<int>, m0: set<int>, marked: set<int>,
                    overflow: bool) {
    exists ms: seq<set<int>>, os: seq<bool> :: GoChain(shells, mem, cap, rs, ms, os)
      && ms[0] == m0 && ms[|rs|] == marked && (overflow <==> true in os)
  }

  lemma GoNone(shells: Shells, mem: Memory, cap: nat, m0: set<int>)
    ensures GoAll(shells, mem, cap, [], m0, m0, false)
  {
    assert GoChain(shells, mem, cap, [], [m0], []);
  }

  lemma GoOneMore(shells: Shells, mem: Memory, cap: nat, rs: seq<int>, r: int, m0: set<int>, m: set<int>, o: bool,
                  marked: set<int>, o': bool)
    requires GoAll(shells, mem, cap, rs, m0, m, o) && GoExact(shells, mem, cap, r, m, marked, o')
    ensures GoAll(shells, mem, cap, rs + [r], m0, marked, o || o')
  {
    var ms: seq<set<int>>, os: seq<bool> :| GoChain(shells, mem, cap, rs, ms, os)
      && ms[0] == m0 && ms[|rs|] == m && (o <==> true in os);
    assert GoChain(shells, mem, cap, rs + [r], ms + [marked], os + [o']);
  }

  lemma GoOnlyOne(shells: Shells, mem: Memory, cap: nat, r: int, m0: set<int>, marked: set<int>, o: bool)
    requires GoAll(shells, mem, cap, [r], m0, marked, o)
    ensures GoExact(shells, mem, cap, r, m0, marked, o)
  {
    var ms: seq<set<int>>, os: seq<bool> :| GoChain(shells, mem, cap, [r], ms, os)
      && ms[0] == m0 && ms[1] == marked && (o <==> true in os);
    assert os == [os[0]];
  }
}
