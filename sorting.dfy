/** Ordering by a total preorder, standing in for the two sorts the
    core relies on: the database's `.sort(...)` on query results and
    JavaScript's `Array.prototype.sort`. The order among equivalent elements
    is left open. */
module Sorting {

  /** `le(a, b)`: `a` may come before `b`. Total and transitive. */
  ghost predicate TotalPreorder<T(!new)>(le: (T, T) -> bool) {
    (forall a, b :: le(a, b) || le(b, a)) &&
    (forall a, b, c :: le(a, b) && le(b, c) ==> le(a, c))
  }

  predicate SortedBy<T>(s: seq<T>, le: (T, T) -> bool) {
    forall i, j :: 0 <= i < j < |s| ==> le(s[i], s[j])
  }

  predicate NoDuplicates<T(==)>(s: seq<T>) {
    forall i, j :: 0 <= i < j < |s| ==> s[i] != s[j]
  }

  /** Inserts `x` after every element that may precede it, so that among
      equivalent elements the one inserted last comes last. */
  function InsertBy<T(!new)>(s: seq<T>, x: T, le: (T, T) -> bool): (r: seq<T>)
    ensures multiset(r) == multiset(s) + multiset{x}
  {
    if s == [] then [x]
    else
      assert s == [s[0]] + s[1..];
      if le(s[0], x) then [s[0]] + InsertBy(s[1..], x, le) else [x] + s
  }

  /** Insertion into a sorted sequence keeps it sorted. */
  lemma {:induction false} InsertBySorted<T(!new)>(s: seq<T>, x: T, le: (T, T) -> bool)
    requires TotalPreorder(le) && SortedBy(s, le)
    ensures SortedBy(InsertBy(s, x, le), le)
  {
    if s != [] {
      assert s == [s[0]] + s[1..];
      if le(s[0], x) {
        var tail := InsertBy(s[1..], x, le);
        InsertBySorted(s[1..], x, le);
        forall j | 0 <= j < |tail| ensures le(s[0], tail[j]) {
          assert tail[j] in multiset(tail);
          if tail[j] != x {
            assert tail[j] in multiset(s[1..]);
            var k :| 0 <= k < |s[1..]| && s[1..][k] == tail[j];
            assert s[k + 1] == tail[j];
          }
        }
      }
    }
  }

  /** Insertion sort of `s` by `le`. */
  function SortBy<T(!new)>(s: seq<T>, le: (T, T) -> bool): (r: seq<T>)
    requires TotalPreorder(le)
    ensures multiset(r) == multiset(s)
    ensures SortedBy(r, le)
  {
    if s == [] then []
    else
      assert s == s[..|s| - 1] + [s[|s| - 1]];
      var r := InsertBy(SortBy(s[..|s| - 1], le), s[|s| - 1], le);
      InsertBySorted(SortBy(s[..|s| - 1], le), s[|s| - 1], le);
      r
  }

  /** A sequence without repeated elements keeps that property under any
      rearrangement of the same multiset. */
  lemma PermutationKeepsNoDuplicates<T>(s: seq<T>, r: seq<T>)
    requires multiset(s) == multiset(r) && NoDuplicates(s)
    ensures NoDuplicates(r)
  {
    forall x | x in multiset(s) ensures multiset(s)[x] == 1 {
      MultiplicityOfDistinct(s, x);
    }
    forall i, j | 0 <= i < j < |r| ensures r[i] != r[j] {
      var x := r[i];
      assert r == r[..j] + r[j..];
      assert x in multiset(r[..j]) by { assert r[..j][i] == x; }
      assert x in multiset(s) by { assert x in multiset(r); }
      assert multiset(r)[x] == 1;
      assert multiset(r) == multiset(r[..j]) + multiset(r[j..]);
      assert multiset(r[j..])[x] == 0;
      assert r[j..][0] == r[j];
    }
  }

  /** Inserting an element that is not present keeps the elements distinct. */
  lemma InsertByFresh<T(!new)>(s: seq<T>, x: T, le: (T, T) -> bool)
    requires NoDuplicates(s) && x !in s
    ensures NoDuplicates(InsertBy(s, x, le))
  {
    var t := s + [x];
    forall i, j | 0 <= i < j < |t| ensures t[i] != t[j] {
      if j == |s| {
        assert t[i] == s[i];
      }
    }
    PermutationKeepsNoDuplicates(t, InsertBy(s, x, le));
  }

  lemma MultiplicityOfDistinct<T>(s: seq<T>, x: T)
    requires NoDuplicates(s) && x in multiset(s)
    ensures multiset(s)[x] == 1
  {
    if s != [] {
      assert s == [s[0]] + s[1..];
      assert NoDuplicates(s[1..]);
      if s[0] == x {
        assert x !in s[1..];
        assert x !in multiset(s[1..]);
      } else {
        MultiplicityOfDistinct(s[1..], x);
      }
    }
  }

  /** In a sorted sequence without repetitions, whatever is left out of the
      first `n` elements may not strictly precede any of them: the prefix is a
      top-`n` selection. */
  lemma PrefixIsTop<T>(r: seq<T>, n: nat, le: (T, T) -> bool, w: T)
    requires SortedBy(r, le) && n <= |r| && w in r && w !in r[..n]
    ensures forall i :: 0 <= i < n ==> le(r[i], w)
  {
    var j :| 0 <= j < |r| && r[j] == w;
  }
}
