/** Generic facts about sequences used by the registry and list models. */
module Seqs {

  /** No element occurs twice. */
  ghost predicate NoDuplicates<T>(s: seq<T>) {
    forall i, j :: 0 <= i < j < |s| ==> s[i] != s[j]
  }

  /** `sub` can be obtained from `s` by deleting elements, keeping order. */
  ghost predicate IsSubsequence<T>(sub: seq<T>, s: seq<T>)
    decreases |s|
  {
    if sub == [] then true
    else if s == [] then false
    else if sub[0] == s[0] then IsSubsequence(sub[1..], s[1..])
    else IsSubsequence(sub, s[1..])
  }

  /** The elements of `s` that satisfy `keep`, in their original order
      (JavaScript's `Array.prototype.filter`). */
  function Filter<T(!new)>(s: seq<T>, keep: T -> bool): (r: seq<T>)
    ensures |r| <= |s|
    ensures forall x :: x in r <==> x in s && keep(x)
    ensures forall x :: multiset(r)[x] == if keep(x) then multiset(s)[x] else 0
    ensures IsSubsequence(r, s)
    decreases |s|
  {
    if s == [] then []
    else
      var rest := Filter(s[1..], keep);
      assert s == [s[0]] + s[1..];
      if keep(s[0]) then [s[0]] + rest else rest
  }

  /** Removing elements keeps a sequence free of duplicates. */
  lemma {:induction false} FilterKeepsNoDuplicates<T(!new)>(s: seq<T>, keep: T -> bool)
    requires NoDuplicates(s)
    ensures NoDuplicates(Filter(s, keep))
    decreases |s|
  {
    if s != [] {
      FilterKeepsNoDuplicates(s[1..], keep);
      var rest := Filter(s[1..], keep);
      assert s[0] !in s[1..];
      assert s[0] !in rest;
    }
  }

  /** A duplicate-free sequence has as many distinct elements as positions. */
  lemma {:induction false} DistinctCardinality<T>(s: seq<T>)
    requires NoDuplicates(s)
    ensures |set x | x in s| == |s|
    decreases |s|
  {
    if s != [] {
      DistinctCardinality(s[1..]);
      assert (set x | x in s) == {s[0]} + (set x | x in s[1..]);
      assert s[0] !in (set x | x in s[1..]);
    }
  }

  /** Every element of a subsequence is an element of the whole. */
  lemma {:induction false} SubsequenceMembers<T>(sub: seq<T>, s: seq<T>)
    requires IsSubsequence(sub, s)
    ensures forall x :: x in sub ==> x in s
    decreases |s|
  {
    if sub != [] && s != [] {
      if sub[0] == s[0] {
        SubsequenceMembers(sub[1..], s[1..]);
        assert sub == [sub[0]] + sub[1..];
      } else {
        SubsequenceMembers(sub, s[1..]);
      }
    }
  }

  /** Within a duplicate-free sequence, a subsequence is determined by its
      elements: two subsequences with the same elements are equal. */
  lemma {:induction false} SubsequenceDetermined<T>(a: seq<T>, b: seq<T>, s: seq<T>)
    requires NoDuplicates(s) && IsSubsequence(a, s) && IsSubsequence(b, s)
    requires forall x :: x in a <==> x in b
    ensures a == b
    decreases |s|
  {
    if s != [] {
      var h, t := s[0], s[1..];
      assert NoDuplicates(t);
      assert h !in t;
      if h in a {
        assert HeadIs(a, h, s) && HeadIs(b, h, s) by {
          HeadOfSubsequence(a, s);
          HeadOfSubsequence(b, s);
        }
        SubsequenceMembers(a[1..], t);
        SubsequenceMembers(b[1..], t);
        forall x ensures x in a[1..] <==> x in b[1..] {
          assert a == [h] + a[1..] && b == [h] + b[1..];
          if x in a[1..] { assert x in t && x in a; }
          if x in b[1..] { assert x in t && x in b; }
        }
        SubsequenceDetermined(a[1..], b[1..], t);
        assert a == [h] + a[1..] && b == [h] + b[1..];
      } else {
        assert h !in b;
        assert IsSubsequence(a, t) by { if a != [] { assert a[0] != h; } }
        assert IsSubsequence(b, t) by { if b != [] { assert b[0] != h; } }
        SubsequenceDetermined(a, b, t);
      }
    }
  }

  /** `sub` starts with `h` and its tail is a subsequence of `s`'s tail. */
  ghost predicate HeadIs<T>(sub: seq<T>, h: T, s: seq<T>)
    requires s != []
  {
    sub != [] && sub[0] == h && IsSubsequence(sub[1..], s[1..])
  }

  /** A subsequence of a duplicate-free sequence that contains its head
      starts with that head. */
  lemma HeadOfSubsequence<T>(sub: seq<T>, s: seq<T>)
    requires NoDuplicates(s) && s != [] && IsSubsequence(sub, s) && s[0] in sub
    ensures HeadIs(sub, s[0], s)
  {
    if sub[0] != s[0] {
      SubsequenceMembers(sub, s[1..]);
    }
  }
}
