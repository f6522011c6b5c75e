/**
 * The loop catalog: the six-field `Loop` record and the two lists that
 * `AppleLoops.add_loop` maintains. `Insert` is one call of `add_loop` on the
 * pair of lists, `InsertAll` a run of such calls, and the lemmas state what
 * every run keeps: no repeated record in either list, every duplicate also in
 * the master list, the earlier lists as prefixes, the master list holding each
 * inserted record once in order of first insertion, and the duplicate list
 * holding exactly the records inserted more than once.
 */
module Catalog {

  /**
   * One package, as the source's `Loop` namedtuple: equality is field by
   * field, as with tuples. `size` is the stripped `Content-Length` text.
   */
  datatype Loop = Loop(
    name: string,
    url: string,
    mandatory: bool,
    size: string,
    year: string,
    loopFor: string)

  predicate NoDuplicates<T(==)>(s: seq<T>) {
    forall i, j :: 0 <= i < j < |s| ==> s[i] != s[j]
  }

  /** `master_list` and `duplicate_loops_list`. */
  datatype Lists = Lists(master: seq<Loop>, duplicates: seq<Loop>)

  const EMPTY := Lists([], [])

  /** What every sequence of `add_loop` calls keeps true of the two lists. */
  predicate Deduplicated(ls: Lists) {
    && NoDuplicates(ls.master)
    && NoDuplicates(ls.duplicates)
    && forall x :: x in ls.duplicates ==> x in ls.master
  }

  /** One call of `add_loop` with the record `loop`. */
  function Insert(ls: Lists, loop: Loop): (r: Lists)
    ensures loop in r.master
    ensures ls.master <= r.master && ls.duplicates <= r.duplicates
    ensures |r.master| + |r.duplicates| <= |ls.master| + |ls.duplicates| + 1
  {
    if loop !in ls.master then Lists(ls.master + [loop], ls.duplicates)
    else if loop !in ls.duplicates then Lists(ls.master, ls.duplicates + [loop])
    else ls
  }

  /** The calls of `add_loop` with the records `loops`, first to last. */
  function InsertAll(ls: Lists, loops: seq<Loop>): (r: Lists)
    ensures |r.master| + |r.duplicates| <= |ls.master| + |ls.duplicates| + |loops|
  {
    if loops == [] then ls
    else Insert(InsertAll(ls, loops[..|loops| - 1]), loops[|loops| - 1])
  }

  lemma AppendFresh<T>(s: seq<T>, x: T)
    requires NoDuplicates(s) && x !in s
    ensures NoDuplicates(s + [x])
  {
  }

  /** One call keeps the lists deduplicated. */
  lemma InsertDeduplicated(ls: Lists, loop: Loop)
    requires Deduplicated(ls)
    ensures Deduplicated(Insert(ls, loop))
  {
    if loop !in ls.master {
      AppendFresh(ls.master, loop);
    } else if loop !in ls.duplicates {
      AppendFresh(ls.duplicates, loop);
    }
  }

  /** Any run of calls keeps the lists deduplicated. */
  lemma {:induction false} InsertAllDeduplicated(ls: Lists, loops: seq<Loop>)
    requires Deduplicated(ls)
    ensures Deduplicated(InsertAll(ls, loops))
  {
    if loops != [] {
      InsertAllDeduplicated(ls, loops[..|loops| - 1]);
      InsertDeduplicated(InsertAll(ls, loops[..|loops| - 1]), loops[|loops| - 1]);
    }
  }

  /** A run of calls only appends: the old lists are prefixes of the new ones. */
  lemma {:induction false} InsertAllPrefix(ls: Lists, loops: seq<Loop>)
    ensures ls.master <= InsertAll(ls, loops).master
    ensures ls.duplicates <= InsertAll(ls, loops).duplicates
  {
    if loops != [] {
      InsertAllPrefix(ls, loops[..|loops| - 1]);
    }
  }

  /** A record is in the new master list exactly when it was before or was inserted. */
  lemma {:induction false} InsertAllMembers(ls: Lists, loops: seq<Loop>, x: Loop)
    ensures x in InsertAll(ls, loops).master <==> x in ls.master || x in loops
  {
    if loops != [] {
      var init := loops[..|loops| - 1];
      InsertAllMembers(ls, init, x);
      assert loops == init + [loops[|loops| - 1]];
    }
  }

  /**
   * A record is in the new duplicate list exactly when it was before, or it
   * has been seen twice counting its presence in the old master list.
   */
  lemma {:induction false} InsertAllDuplicates(ls: Lists, loops: seq<Loop>, x: Loop)
    ensures x in InsertAll(ls, loops).duplicates <==>
      x in ls.duplicates || multiset(loops)[x] + (if x in ls.master then 1 else 0) >= 2
  {
    if loops != [] {
      var init := loops[..|loops| - 1];
      var last := loops[|loops| - 1];
      assert loops == init + [last];
      InsertAllDuplicates(ls, init, x);
      InsertAllMembers(ls, init, x);
      InsertAllPrefix(ls, init);
      if x in init {
        assert multiset(init)[x] >= 1;
      }
      if multiset(init)[x] >= 1 {
        assert x in multiset(init);
      }
    }
  }

  /** Inserting a run after a run is inserting the two runs together. */
  lemma {:induction false} InsertAllAppend(ls: Lists, a: seq<Loop>, b: seq<Loop>)
    ensures InsertAll(InsertAll(ls, a), b) == InsertAll(ls, a + b)
  {
    if b == [] {
      assert a + b == a;
    } else {
      var init := b[..|b| - 1];
      InsertAllAppend(ls, a, init);
      assert (a + b)[..|a + b| - 1] == a + init;
    }
  }

  /** Index of the first occurrence of `x` in `s`. */
  function FirstIndex<T(==)>(s: seq<T>, x: T): (i: nat)
    requires x in s
    ensures i < |s| && s[i] == x && x !in s[..i]
  {
    if s[0] == x then 0 else 1 + FirstIndex(s[1..], x)
  }

  lemma FirstIndexPrefix<T>(s: seq<T>, n: nat, x: T)
    requires n <= |s| && x in s[..n]
    ensures FirstIndex(s, x) == FirstIndex(s[..n], x)
  {
    var i := FirstIndex(s[..n], x);
    var k := FirstIndex(s, x);
    assert s[..n][..i] == s[..i];
  }

  /** Every element of `m` occurs in `loops`, and `m` lists them in order of first occurrence there. */
  predicate FirstOrdered(m: seq<Loop>, loops: seq<Loop>) {
    && (forall i :: 0 <= i < |m| ==> m[i] in loops)
    && forall i, j :: 0 <= i < j < |m| ==> FirstIndex(loops, m[i]) < FirstIndex(loops, m[j])
  }

  /** Appending to `loops` keeps the first occurrences of what was already there. */
  lemma FirstOrderedExtend(m: seq<Loop>, init: seq<Loop>, last: Loop)
    requires FirstOrdered(m, init)
    ensures FirstOrdered(m, init + [last])
    ensures forall i :: 0 <= i < |m| ==> FirstIndex(init + [last], m[i]) < |init|
  {
    var loops := init + [last];
    assert loops[..|init|] == init;
    forall i | 0 <= i < |m|
      ensures m[i] in loops && FirstIndex(loops, m[i]) == FirstIndex(init, m[i])
    {
      FirstIndexPrefix(loops, |init|, m[i]);
    }
  }

  /** A record first seen at the end comes after everything seen before. */
  lemma FirstOrderedAppend(m: seq<Loop>, init: seq<Loop>, last: Loop)
    requires FirstOrdered(m, init) && last !in init
    ensures FirstOrdered(m + [last], init + [last])
  {
    var loops := init + [last];
    FirstOrderedExtend(m, init, last);
    assert FirstIndex(loops, last) == |init| by {
      assert loops[|init|] == last;
      assert loops[..|init|] == init;
    }
    var m' := m + [last];
    forall i, j | 0 <= i < j < |m'|
      ensures FirstIndex(loops, m'[i]) < FirstIndex(loops, m'[j])
    {
      assert m'[i] == m[i];
      if j < |m| {
        assert m'[j] == m[j];
      }
    }
  }

  /**
   * Starting from empty lists, the master list holds the inserted records in
   * the order in which each was first inserted.
   */
  lemma {:induction false} InsertAllFirstOrder(loops: seq<Loop>)
    ensures FirstOrdered(InsertAll(EMPTY, loops).master, loops)
    ensures forall x :: x in loops ==> x in InsertAll(EMPTY, loops).master
  {
    forall x | x in loops
      ensures x in InsertAll(EMPTY, loops).master
    {
      InsertAllMembers(EMPTY, loops, x);
    }
    if loops != [] {
      var n := |loops| - 1;
      var init := loops[..n];
      var last := loops[n];
      assert loops == init + [last];
      InsertAllFirstOrder(init);
      var m0 := InsertAll(EMPTY, init).master;
      InsertAllMembers(EMPTY, init, last);
      if last in m0 {
        FirstOrderedExtend(m0, init, last);
      } else {
        FirstOrderedAppend(m0, init, last);
      }
    }
  }
}
