/** Subsequences of a list, as a loop that unlinks some of its nodes leaves them. */
module Lists {

  /** The members of k, in the order of s. */
  function Keep(s: seq<int>, k: set<int>): seq<int> {
    if s == [] then []
    else Keep(s[..|s| - 1], k) + (if s[|s| - 1] in k then [s[|s| - 1]] else [])
  }

  function Reverse(s: seq<int>): seq<int> {
    if s == [] then [] else [s[|s| - 1]] + Reverse(s[..|s| - 1])
  }

  lemma StepPrefix(s: seq<int>, k: set<int>, i: nat)
    requires i < |s|
    ensures Keep(s[..i + 1], k) == Keep(s[..i], k) + (if s[i] in k then [s[i]] else [])
    ensures Reverse(s[..i + 1]) == [s[i]] + Reverse(s[..i])
  {
    assert s[..i + 1][..i] == s[..i];
  }

  lemma {:induction false} Members(s: seq<int>, k: set<int>)
    ensures forall x :: x in Keep(s, k) <==> x in s && x in k
    ensures forall x :: x in Reverse(s) <==> x in s
    ensures |Reverse(s)| == |s|
  {
    if s != [] {
      Members(s[..|s| - 1], k);
      assert s == s[..|s| - 1] + [s[|s| - 1]];
    }
  }

  ghost predicate NoDup(s: seq<int>) { forall i, j :: 0 <= i < j < |s| ==> s[i] != s[j] }

  ghost function Elems(s: seq<int>): set<int> { set x | x in s }

  lemma KeptElems(s: seq<int>, k: set<int>)
    ensures Elems(Keep(s, k)) == Elems(s) * k
  {
    Members(s, k);
    forall x | x in Elems(s) * k
      ensures x in Elems(Keep(s, k))
    {
      assert x in s && x in k;
    }
    forall x | x in Elems(Keep(s, k))
      ensures x in Elems(s) * k
    {
      assert x in Keep(s, k);
    }
  }

  lemma ElemsJoin(s: seq<int>, t: seq<int>)
    ensures Elems(s + t) == Elems(s) + Elems(t)
  {
  }

  lemma {:induction false} ElemsReverse(s: seq<int>)
    ensures Elems(Reverse(s)) == Elems(s)
  {
    if s != [] {
      var r, x := s[..|s| - 1], s[|s| - 1];
      ElemsReverse(r);
      ElemsJoin([x], Reverse(r));
      ElemsJoin(r, [x]);
      assert s == r + [x];
    }
  }

  lemma ElemsHas(s: seq<int>, i: nat)
    requires i < |s|
    ensures s[i] in Elems(s)
  {
  }

  lemma NewAt(s: seq<int>, i: nat)
    requires NoDup(s) && i < |s|
    ensures s[i] !in s[..i]
  {
  }

  /** Two lists without repetitions and without a common member make one. */
  lemma NoDupJoin(s: seq<int>, t: seq<int>)
    ensures NoDup(s + t) <==> NoDup(s) && NoDup(t) && Elems(s) !! Elems(t)
  {
    var u := s + t;
    if NoDup(u) {
      assert forall i :: 0 <= i < |s| ==> s[i] == u[i];
      assert forall i :: 0 <= i < |t| ==> t[i] == u[|s| + i];
    }
    if NoDup(s) && NoDup(t) && Elems(s) !! Elems(t) {
      forall i, j | 0 <= i < j < |u|
        ensures u[i] != u[j]
      {
        if i < |s| && j >= |s| {
          assert u[i] in Elems(s) && u[j] in Elems(t);
        }
      }
    }
  }

  /** Sorting a list into two keeps it free of repetitions. */
  lemma {:induction false} NoDupSplit(s: seq<int>, k: set<int>)
    requires NoDup(s)
    ensures NoDup(Keep(s, k)) && NoDup(Reverse(s))
  {
    if s != [] {
      var r, x := s[..|s| - 1], s[|s| - 1];
      NoDupSplit(r, k);
      Members(r, k);
      NoDupJoin([x], Reverse(r));
      NoDupJoin(Keep(r, k), [x]);
    }
    Members(s, k);
  }

  /** One step of a loop that unlinks some members of a list: `cur` is what the loop has kept so
      far followed by what it has not seen, and `n` is the length of what it has kept. */
  lemma UnlinkStep(list: seq<int>, cur: seq<int>, k: set<int>, i: nat, n: nat) returns (next: seq<int>)
    requires NoDup(list) && i < |list| && cur == Keep(list[..i], k) + list[i..] && n == |Keep(list[..i], k)|
    ensures n < |cur| && cur[n] == list[i] && list[i] !in Elems(Keep(list[..i], k))
    ensures next == if list[i] in k then cur else cur[..n] + cur[n + 1..]
    ensures next == Keep(list[..i + 1], k) + list[i + 1..]
    ensures |Keep(list[..i + 1], k)| == if list[i] in k then n + 1 else n
    ensures Elems(Keep(list[..i + 1], k)) == Elems(Keep(list[..i], k)) + (if list[i] in k then {list[i]} else {})
  {
    StepPrefix(list, k, i);
    Members(list[..i], k);
    NewAt(list, i);
    assert list[i..] == [list[i]] + list[i + 1..];
    next := if list[i] in k then cur else cur[..n] + cur[n + 1..];
  }

  lemma KeepNone(k: set<int>)
    ensures Keep([], k) == [] && Reverse([]) == [] && Elems([]) == {}
  {
  }

  lemma ReverseSnoc(s: seq<int>, x: int)
    ensures Reverse(s + [x]) == [x] + Reverse(s)
  {
  }
}
