/** Managed memory as the collector sees it: blocks of words, the shell that says which words of a
    block are gc_ptr fields, and reachability along those fields. */
module Objects {

  const NULL: int := 0
  const BLOCK: int := 8         // sizeof(block)
  const META: int := 24         // sizeof(base_meta): virtual table, shell, count

  /** The array made by create_meta: the object size in bytes, then the gc_ptr offsets. */
  datatype Shell = Shell(size: int, offsets: seq<int>)

  /** A 64-bit word split at its two tag bits: it is addr | flags (see Words.SplitWord). */
  datatype Word = Word(addr: int, flags: int)

  type Payload = seq<Word>              // the data words of a block
  type Memory = map<int, Payload>       // block address -> its data
  type Shells = map<Word, Shell>        // pointer to a shell -> its contents

  const ZERO: Word := Word(0, 0)

  function Value(w: Word): int { w.addr + w.flags }

  // ----- gc_ptr words -----

  predicate IsNullWord(w: Word) { w.addr == NULL }

  /** The composite flag of gc_ptr is the second tag bit. */
  predicate IsComposite(w: Word) { w.flags >= 2 }

  /** get_block(get_meta_inf(get_next_obj(p))) for the non-null, non-composite word at p. */
  function TargetOf(w: Word): int { w.addr - META - BLOCK }

  /** The word that names block b, with the given tag bits. */
  function WordTo(b: int, flags: int): Word { Word(b + BLOCK + META, flags) }

  // ----- the fields of an object -----

  function ShellOf(shells: Shells, d: Payload): Shell
    requires |d| >= 3 && d[1] in shells
  {
    shells[d[1]]
  }

  predicate ShellOk(sh: Shell) {
    && sh.size % 8 == 0 && sh.size >= 0
    && forall j :: 0 <= j < |sh.offsets| ==>
      sh.offsets[j] % 8 == 0 && 0 <= sh.offsets[j]
      && sh.offsets[j] + 8 <= sh.size
  }

  /** The block holds a base_meta with a known shell, and room for its count of objects: more than
      enough, since sizes are rounded strictly up. */
  predicate MetaOk(shells: Shells, d: Payload) {
    && |d| >= 3 && d[1] in shells && ShellOk(shells[d[1]])
    && Value(d[2]) >= 0 && META + shells[d[1]].size * Value(d[2]) < 8 * |d|
  }

  /** Index in the payload of the field at byte offset `at` from the first object. */
  function FieldAt(at: int): int { (META + at) / 8 }

  /** The fields at the given offsets of the one object that starts at byte `base` from the first. */
  function OffsetFields(offsets: seq<int>, base: int): set<int> {
    if offsets == [] then {}
    else OffsetFields(offsets[..|offsets| - 1], base) + {FieldAt(base + offsets[|offsets| - 1])}
  }

  function RowFields(sh: Shell, base: int): set<int> { OffsetFields(sh.offsets, base) }

  /** The fields of n objects laid end to end from byte `base`. */
  function FieldsFrom(sh: Shell, base: int, n: nat): set<int>
    decreases n
  {
    if n == 0 then {} else RowFields(sh, base) + FieldsFrom(sh, base + sh.size, n - 1)
  }

  function Fields(shells: Shells, d: Payload): set<int>
    requires MetaOk(shells, d)
  {
    FieldsFrom(shells[d[1]], 0, Value(d[2]))
  }

  lemma {:induction false} RowStep(offsets: seq<int>, base: int, j: nat)
    requires j < |offsets|
    ensures OffsetFields(offsets[..j + 1], base) == OffsetFields(offsets[..j], base) + {FieldAt(base + offsets[j])}
    ensures FieldAt(base + offsets[j]) in OffsetFields(offsets, base)
    decreases |offsets|
  {
    assert offsets[..j + 1][..j] == offsets[..j];
    if j < |offsets| - 1 {
      var r := offsets[..|offsets| - 1];
      assert r[..j + 1] == offsets[..j + 1] && r[..j] == offsets[..j] && r[j] == offsets[j];
      RowStep(r, base, j);
    }
  }

  lemma {:induction false} RowInside(offsets: seq<int>, size: int, base: int, words: int)
    requires ShellOk(Shell(size, offsets)) && base >= 0 && META + base + size <= 8 * words
    ensures forall k :: k in OffsetFields(offsets, base) ==> 3 <= k < words
  {
    if offsets != [] {
      var r := offsets[..|offsets| - 1];
      assert ShellOk(Shell(size, r)) by {
        assert forall j :: 0 <= j < |r| ==> r[j] == offsets[j];
      }
      RowInside(r, size, base, words);
    }
  }

  lemma OneMore(size: int, n: nat)
    requires size >= 0 && n > 0
    ensures size * n == size + size * (n - 1) && size * (n - 1) >= 0
  {
  }

  lemma {:induction false} FieldsInside(sh: Shell, base: int, n: nat, words: int)
    requires ShellOk(sh) && base >= 0 && META + base + sh.size * n <= 8 * words
    ensures forall k :: k in FieldsFrom(sh, base, n) ==> 3 <= k < words
    decreases n
  {
    hide OffsetFields;
    if n > 0 {
      OneMore(sh.size, n);
      RowInside(sh.offsets, sh.size, base, words);
      FieldsInside(sh, base + sh.size, n - 1, words);
    }
  }

  /** Every field index points into the payload, behind the meta. */
  lemma FieldsInPayload(shells: Shells, d: Payload)
    requires MetaOk(shells, d)
    ensures forall k :: k in Fields(shells, d) ==> 3 <= k < |d|
  {
    FieldsInside(shells[d[1]], 0, Value(d[2]), |d|);
  }

  /** Where element i begins, in bytes from the first. */
  function ElementAt(size: int, i: int): int { size * i }

  lemma NextElement(size: int, i: int)
    ensures ElementAt(size, i + 1) == size + ElementAt(size, i) && ElementAt(size, 0) == 0
  {
  }

  lemma {:induction false} OffsetFieldsAre(offsets: seq<int>, base: int, k: int)
    ensures k in OffsetFields(offsets, base) <==>
            exists j :: 0 <= j < |offsets| && k == (META + base + offsets[j]) / 8
  {
    if offsets != [] {
      var r := offsets[..|offsets| - 1];
      OffsetFieldsAre(r, base, k);
      assert forall j :: 0 <= j < |r| ==> r[j] == offsets[j];
      if k in OffsetFields(r, base) {
        var j :| 0 <= j < |r| && k == (META + base + r[j]) / 8;
        assert k == (META + base + offsets[j]) / 8;
      }
      if j :| 0 <= j < |offsets| && k == (META + base + offsets[j]) / 8 {
        if j < |r| { assert k == (META + base + r[j]) / 8; }
      }
    }
  }

  lemma {:induction false} FieldsFromAre(sh: Shell, base: int, n: nat, k: int)
    ensures k in FieldsFrom(sh, base, n) <==> exists i, j :: 0 <= i < n && FieldOf(sh, base, i, j, k)
    decreases n
  {
    if n > 0 {
      hide OffsetFields, ElementAt;
      OffsetFieldsAre(sh.offsets, base, k);
      FieldsFromAre(sh, base + sh.size, n - 1, k);
      NextElement(sh.size, 0);
      if k in RowFields(sh, base) {
        var j :| 0 <= j < |sh.offsets| && k == (META + base + sh.offsets[j]) / 8;
        assert FieldOf(sh, base, 0, j, k);
      }
      if k in FieldsFrom(sh, base + sh.size, n - 1) {
        var i, j :| 0 <= i < n - 1 && FieldOf(sh, base + sh.size, i, j, k);
        NextElement(sh.size, i);
        assert FieldOf(sh, base, i + 1, j, k);
      }
      if i, j :| 0 <= i < n && FieldOf(sh, base, i, j, k) {
        if i > 0 {
          NextElement(sh.size, i - 1);
          assert FieldOf(sh, base + sh.size, i - 1, j, k);
        }
      }
    }
  }

  /** Payload word k holds the pointer at the j-th offset of element i. */
  predicate FieldOf(sh: Shell, base: int, i: int, j: int, k: int) {
    0 <= j < |sh.offsets| && k == (META + base + ElementAt(sh.size, i) + sh.offsets[j]) / 8
  }

  /** The fields of a block are exactly the words at the shell's offsets in each of its elements. */
  lemma FieldsExactly(shells: Shells, d: Payload, k: int)
    requires MetaOk(shells, d)
    ensures k in Fields(shells, d) <==> exists i, j :: 0 <= i < Value(d[2]) && FieldOf(shells[d[1]], 0, i, j, k)
  {
    FieldsFromAre(shells[d[1]], 0, Value(d[2]), k);
  }

  predicate PayloadOk(shells: Shells, d: Payload) {
    MetaOk(shells, d) && forall k :: k in Fields(shells, d) && 0 <= k < |d| ==> !IsComposite(d[k])
  }

  /** The blocks the fields of d point to. */
  function Succ(shells: Shells, d: Payload): set<int>
    requires MetaOk(shells, d)
  {
    set k | k in Fields(shells, d) && 0 <= k < |d| && !IsNullWord(d[k]) :: TargetOf(d[k])
  }

  // ----- reachability -----

  /** Every block of u, those in `raw` apart, is a well formed object that points only into u. */
  ghost predicate Graph(shells: Shells, mem: Memory, u: set<int>, raw: set<int>) {
    forall b :: b in u - raw ==> b in mem && PayloadOk(shells, mem[b]) && Succ(shells, mem[b]) <= u
  }

  ghost predicate IsPath(shells: Shells, mem: Memory, path: seq<int>) {
    && |path| > 0
    && (forall i :: 0 <= i < |path| ==> path[i] in mem && MetaOk(shells, mem[path[i]]))
    && (forall i, j :: 0 <= i && j == i + 1 && j < |path| ==> path[j] in Succ(shells, mem[path[i]]))
  }

  ghost predicate Reaches(shells: Shells, mem: Memory, a: int, b: int) {
    exists path :: IsPath(shells, mem, path) && path[0] == a && path[|path| - 1] == b
  }

  ghost predicate ReachedFrom(shells: Shells, mem: Memory, seeds: set<int>, b: int) {
    exists a :: a in seeds && Reaches(shells, mem, a, b)
  }

  ghost predicate ClosedUnder(shells: Shells, mem: Memory, s: set<int>) {
    forall b :: b in s ==> b in mem && MetaOk(shells, mem[b]) && Succ(shells, mem[b]) <= s
  }

  lemma ReachesStep(shells: Shells, mem: Memory, a: int, b: int, c: int)
    requires Reaches(shells, mem, a, b)
    requires b in mem && MetaOk(shells, mem[b]) && c in Succ(shells, mem[b])
    requires c in mem && MetaOk(shells, mem[c])
    ensures Reaches(shells, mem, a, c)
  {
    var path :| IsPath(shells, mem, path) && path[0] == a && path[|path| - 1] == b;
    assert IsPath(shells, mem, path + [c]);
  }

  lemma ReachesOn(shells: Shells, mem: Memory, a: int, b: int, c: int)
    requires Reaches(shells, mem, a, b) && Reaches(shells, mem, b, c)
    ensures Reaches(shells, mem, a, c)
  {
    var p :| IsPath(shells, mem, p) && p[0] == a && p[|p| - 1] == b;
    var q :| IsPath(shells, mem, q) && q[0] == b && q[|q| - 1] == c;
    var r := p + q[1..];
    assert forall i :: |p| - 1 <= i < |r| ==> r[i] == q[i - |p| + 1];
    assert IsPath(shells, mem, r);
    assert r[|r| - 1] == c;
  }

  lemma ReachedOn(shells: Shells, mem: Memory, seeds: set<int>, b: int, c: int)
    requires ReachedFrom(shells, mem, seeds, b) && Reaches(shells, mem, b, c)
    ensures ReachedFrom(shells, mem, seeds, c)
  {
    var a :| a in seeds && Reaches(shells, mem, a, b);
    ReachesOn(shells, mem, a, b, c);
  }

  /** A closed set that holds the start of a path holds its end. */
  lemma {:induction false} ClosedHoldsPath(shells: Shells, mem: Memory, s: set<int>, path: seq<int>)
    requires ClosedUnder(shells, mem, s) && IsPath(shells, mem, path) && path[0] in s
    ensures path[|path| - 1] in s
  {
    if |path| > 1 {
      var rest := path[1..];
      var a := path[0];
      assert a in s;
      assert Succ(shells, mem[a]) <= s;
      assert path[1] in Succ(shells, mem[a]);
      ClosedHoldsPath(shells, mem, s, rest);
    }
  }

  /** The marked set is what is reached from the seeds as soon as it holds the seeds, is closed, and
      holds nothing unreached. */
  lemma ClosedIsReached(shells: Shells, mem: Memory, seeds: set<int>, s: set<int>)
    requires ClosedUnder(shells, mem, s) && seeds <= s
    requires forall b :: b in s ==> ReachedFrom(shells, mem, seeds, b)
    ensures forall b :: b in s <==> ReachedFrom(shells, mem, seeds, b)
  {
    forall b | ReachedFrom(shells, mem, seeds, b)
      ensures b in s
    {
      var a :| a in seeds && Reaches(shells, mem, a, b);
      var path :| IsPath(shells, mem, path) && path[0] == a && path[|path| - 1] == b;
      ClosedHoldsPath(shells, mem, s, path);
    }
  }
}
