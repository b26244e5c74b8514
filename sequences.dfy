/** Order-aware facts about sequences: first-occurrence deduplication
    (what `Array.from(new Set(xs))` computes) and order-preserving
    subsequences (what `Array.prototype.filter` returns). */
module Sequences {

  predicate NoDuplicates<T(==)>(s: seq<T>) {
    forall i, j :: 0 <= i < j < |s| ==> s[i] != s[j]
  }

  /** The position of the first occurrence of x in s. */
  function FirstIndex<T(==)>(s: seq<T>, x: T): (i: nat)
    requires x in s
    ensures i < |s| && s[i] == x && x !in s[..i]
  {
    if s[0] == x then 0 else 1 + FirstIndex(s[1..], x)
  }

  /** The distinct elements of s, each kept at its first occurrence, built
      the way a Set collects them: one element at a time, from the left. */
  function Distinct<T(==)>(s: seq<T>): seq<T>
  {
    if |s| == 0 then []
    else
      var r := Distinct(s[..|s| - 1]);
      if s[|s| - 1] in r then r else r + [s[|s| - 1]]
  }

  /** Appending to s does not move the first occurrence of anything already in s. */
  lemma FirstIndexSnoc<T>(s: seq<T>, x: T, y: T)
    requires y in s
    ensures FirstIndex(s + [x], y) == FirstIndex(s, y)
  {
    assert (s + [x])[..|s|] == s;
  }

  /** Distinct has no duplicates, holds exactly the elements of s, and lists
      them in the order of their first occurrences in s. */
  lemma {:induction false} DistinctSpec<T>(s: seq<T>)
    ensures NoDuplicates(Distinct(s))
    ensures forall x :: x in Distinct(s) <==> x in s
    ensures forall i, j :: 0 <= i < j < |Distinct(s)| ==>
      FirstIndex(s, Distinct(s)[i]) < FirstIndex(s, Distinct(s)[j])
  {
    if |s| > 0 {
      var init, x := s[..|s| - 1], s[|s| - 1];
      assert s == init + [x];
      DistinctSpec(init);
      var r := Distinct(init);
      forall y | y in init
        ensures FirstIndex(s, y) == FirstIndex(init, y)
      {
        FirstIndexSnoc(init, x, y);
      }
      if x !in r {
        assert FirstIndex(s, x) == |init| by {
          assert x !in init;
          assert s[..|init|] == init;
        }
      }
    }
  }

  /** a can be obtained from b by deleting elements: matched greedily from the end. */
  predicate IsSubsequence<T(==)>(a: seq<T>, b: seq<T>)
    decreases |b|
  {
    if |a| == 0 then true
    else if |b| == 0 then false
    else if a[|a| - 1] == b[|b| - 1] then IsSubsequence(a[..|a| - 1], b[..|b| - 1])
    else IsSubsequence(a, b[..|b| - 1])
  }

  /** Appending the same element to both keeps a subsequence; appending an
      element a does not contain to b alone keeps it too. */
  lemma SubsequenceExtend<T>(a: seq<T>, b: seq<T>, x: T)
    requires IsSubsequence(a, b)
    ensures IsSubsequence(a + [x], b + [x])
    ensures x !in a ==> IsSubsequence(a, b + [x])
  {
    assert (a + [x])[..|a|] == a;
    assert (b + [x])[..|b|] == b;
  }

  /** The elements of s that satisfy f, in order (`s.filter(f)`). */
  function Keep<T>(f: T -> bool, s: seq<T>): seq<T>
  {
    if |s| == 0 then [] else Keep(f, s[..|s| - 1]) + if f(s[|s| - 1]) then [s[|s| - 1]] else []
  }

  /** Keeping by f yields a subsequence of s holding exactly the elements of s
      that satisfy f. */
  lemma {:induction false} KeepSpec<T>(f: T -> bool, s: seq<T>)
    ensures IsSubsequence(Keep(f, s), s)
    ensures forall x :: x in Keep(f, s) <==> x in s && f(x)
  {
    if |s| > 0 {
      var init, last := s[..|s| - 1], s[|s| - 1];
      KeepSpec(f, init);
      assert s == init + [last];
      var r := Keep(f, init);
      if f(last) {
        assert (r + [last])[..|r|] == r;
      } else {
        assert Keep(f, s) == r;
      }
      SubsequenceExtend(r, init, last);
    }
  }

  /** Keeping by f retains every copy of an element satisfying f and no copy
      of any other. */
  lemma {:induction false} KeepCount<T>(f: T -> bool, s: seq<T>, x: T)
    ensures multiset(Keep(f, s))[x] == if f(x) then multiset(s)[x] else 0
  {
    if |s| > 0 {
      var init, last := s[..|s| - 1], s[|s| - 1];
      KeepCount(f, init, x);
      assert s == init + [last];
    }
  }
}
