/** Notions about sequences that several components share. */
module Sequences {
  import opened Wrappers

  /** `needle` lies in `haystack` at this place. */
  predicate OccursAt<T(==)>(haystack: seq<T>, needle: seq<T>, at: int) {
    0 <= at <= |haystack| - |needle| && haystack[at..at + |needle|] == needle
  }

  /** `haystack.find(needle)` from a position: the first occurrence. */
  function Find<T(==)>(haystack: seq<T>, needle: seq<T>, from: nat): (at: Option<nat>)
    ensures at.Some? ==> from <= at.value && OccursAt(haystack, needle, at.value)
    ensures at.Some? ==> forall k :: from <= k < at.value ==> !OccursAt(haystack, needle, k)
    ensures at.None? ==> forall k :: from <= k ==> !OccursAt(haystack, needle, k)
    decreases |haystack| - from
  {
    if from + |needle| > |haystack| then None
    else if OccursAt(haystack, needle, from) then Some(from)
    else if from == |haystack| then None
    else Find(haystack, needle, from + 1)
  }

  predicate Increasing(s: seq<int>) {
    forall i, j :: 0 <= i < j < |s| ==> s[i] < s[j]
  }

  /** `[x for x in s if keep(x)]` */
  function Filter<T>(s: seq<T>, keep: T -> bool): seq<T> {
    if s == [] then [] else
    Filter(s[..|s| - 1], keep) + if keep(s[|s| - 1]) then [s[|s| - 1]] else []
  }

  /** Filtering by a condition everything meets, and by one nothing meets. */
  lemma {:induction false} FilterAllOrNone<T>(s: seq<T>, keep: T -> bool)
    ensures (forall x :: x in s ==> keep(x)) ==> Filter(s, keep) == s
    ensures (forall x :: x in s ==> !keep(x)) ==> Filter(s, keep) == []
  {
    if s != [] {
      var front := s[..|s| - 1];
      FilterAllOrNone(front, keep);
      assert s == front + [s[|s| - 1]];
      assert forall x :: x in front ==> x in s;
      assert s[|s| - 1] in s;
    }
  }

  lemma {:induction false} FilterCounts<T>(s: seq<T>, keep: T -> bool, x: T)
    ensures multiset(Filter(s, keep))[x] == if keep(x) then multiset(s)[x] else 0
  {
    if s != [] {
      FilterCounts(s[..|s| - 1], keep, x);
      assert s == s[..|s| - 1] + [s[|s| - 1]];
    }
  }

  lemma {:induction false} FilterIn<T>(s: seq<T>, keep: T -> bool, x: T)
    ensures x in Filter(s, keep) <==> x in s && keep(x)
  {
    FilterCounts(s, keep, x);
    assert x in s <==> x in multiset(s);
    assert x in Filter(s, keep) <==> x in multiset(Filter(s, keep));
  }
}
