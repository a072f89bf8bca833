/** The sort behind `activitiesByDate`: `Array.prototype.sort` with a
    comparator that subtracts integer keys. The language guarantees this
    sort is stable, so its result is fixed by the keys and the input order.
    The model is an insertion sort; `StableSortIsUnique` shows that any
    other stable sort returns the same sequence. */
module Sorting {

  /** Keys never decrease from left to right. */
  ghost predicate SortedBy<T>(s: seq<T>, key: T -> int) {
    forall i, j :: 0 <= i <= j < |s| ==> key(s[i]) <= key(s[j])
  }

  /** The elements of `s` whose key is `v`, in order. Two sequences agree on
      `WithKey` for every `v` exactly when one is a stable rearrangement of
      the other. */
  function WithKey<T>(s: seq<T>, key: T -> int, v: int): (r: seq<T>)
    decreases |s|
  {
    if s == [] then []
    else (if key(s[0]) == v then [s[0]] else []) + WithKey(s[1..], key, v)
  }

  /** Every element picked by `WithKey` comes from `s` and has key `v`. */
  lemma {:induction false} WithKeyMember<T>(s: seq<T>, key: T -> int, v: int, x: T)
    requires x in WithKey(s, key, v)
    ensures x in s && key(x) == v
    decreases |s|
  {
    if s != [] && x != s[0] {
      WithKeyMember(s[1..], key, v, x);
    } else if s != [] && key(s[0]) != v {
      WithKeyMember(s[1..], key, v, x);
    }
  }

  /** `WithKey` of a sequence with a known first element. */
  lemma WithKeyCons<T>(x: T, s: seq<T>, key: T -> int, v: int)
    ensures WithKey([x] + s, key, v) == (if key(x) == v then [x] else []) + WithKey(s, key, v)
  {
  }

  /** Places `x` before the first element whose key is not smaller, so that
      `x` precedes the elements with an equal key. */
  function Insert<T>(x: T, s: seq<T>, key: T -> int): (r: seq<T>)
    requires SortedBy(s, key)
    ensures SortedBy(r, key)
    ensures multiset(r) == multiset(s) + multiset{x}
    decreases |s|
  {
    if s == [] || key(x) <= key(s[0]) then [x] + s
    else
      var rest := Insert(x, s[1..], key);
      assert s == [s[0]] + s[1..];
      InsertAboveHead(x, s, rest, key);
      SortedCons(s[0], rest, key);
      [s[0]] + rest
  }

  /** When `x` goes after the head of `s`, everything in the recursive
      result has a key at least the head's. */
  lemma InsertAboveHead<T>(x: T, s: seq<T>, rest: seq<T>, key: T -> int)
    requires SortedBy(s, key) && s != [] && key(s[0]) < key(x)
    requires multiset(rest) == multiset(s[1..]) + multiset{x}
    ensures forall e :: e in rest ==> key(s[0]) <= key(e)
  {
    forall e | e in rest ensures key(s[0]) <= key(e) {
      assert e in multiset(rest);
      assert e in multiset(s[1..]) || e == x;
      if e != x {
        var i :| 0 <= i < |s[1..]| && s[1..][i] == e;
        assert s[1..][i] == s[i + 1];
      }
    }
  }

  /** A head no larger than every later key extends a sorted sequence. */
  lemma SortedCons<T>(h: T, s: seq<T>, key: T -> int)
    requires SortedBy(s, key)
    requires forall e :: e in s ==> key(h) <= key(e)
    ensures SortedBy([h] + s, key)
  {
  }

  /** Inserting `x` puts it first among the elements with its key and
      leaves every other key's elements as they were. */
  lemma {:induction false} WithKeyInsert<T>(x: T, s: seq<T>, key: T -> int, v: int)
    requires SortedBy(s, key)
    ensures WithKey(Insert(x, s, key), key, v) == (if key(x) == v then [x] else []) + WithKey(s, key, v)
    decreases |s|
  {
    if s == [] || key(x) <= key(s[0]) {
      WithKeyCons(x, s, key, v);
    } else {
      var rest := Insert(x, s[1..], key);
      WithKeyCons(s[0], rest, key, v);
      WithKeyInsert(x, s[1..], key, v);
      WithKeyCons(s[0], s[1..], key, v);
      assert s == [s[0]] + s[1..];
    }
  }

  /** Stable sort by `key`. */
  function SortBy<T>(s: seq<T>, key: T -> int): (r: seq<T>)
    ensures SortedBy(r, key)
    ensures multiset(r) == multiset(s)
    ensures forall v :: WithKey(r, key, v) == WithKey(s, key, v)
    decreases |s|
  {
    if s == [] then []
    else
      var rest := SortBy(s[1..], key);
      assert s == [s[0]] + s[1..];
      assert forall v :: WithKey(Insert(s[0], rest, key), key, v) == WithKey(s, key, v) by {
        forall v ensures WithKey(Insert(s[0], rest, key), key, v) == WithKey(s, key, v) {
          WithKeyInsert(s[0], rest, key, v);
          WithKeyCons(s[0], s[1..], key, v);
        }
      }
      Insert(s[0], rest, key)
  }

  /** The head of a non-empty sequence is picked by `WithKey` for its key. */
  lemma WithKeyOfHead<T>(s: seq<T>, key: T -> int)
    requires s != []
    ensures WithKey(s, key, key(s[0])) != []
  {
  }

  /** Two sorted sequences with the same elements per key, in the same order
      per key, are equal: a stable sort has exactly one possible result. */
  lemma {:induction false} StableSortIsUnique<T>(r: seq<T>, r': seq<T>, key: T -> int)
    requires SortedBy(r, key) && SortedBy(r', key)
    requires forall v :: WithKey(r, key, v) == WithKey(r', key, v)
    ensures r == r'
    decreases |r|
  {
    if r == [] || r' == [] {
      if r != [] {
        WithKeyOfHead(r, key);
      } else if r' != [] {
        WithKeyOfHead(r', key);
      }
    } else {
      var x, y := r[0], r'[0];
      if key(x) < key(y) {
        WithKeyMember(r', key, key(x), x);
      } else if key(y) < key(x) {
        WithKeyMember(r, key, key(y), y);
      }
      assert WithKey(r, key, key(x))[0] == x;
      assert WithKey(r', key, key(x))[0] == y;
      assert x == y;
      forall v ensures WithKey(r[1..], key, v) == WithKey(r'[1..], key, v) {
        assert r == [x] + r[1..];
        assert r' == [y] + r'[1..];
        WithKeyCons(x, r[1..], key, v);
        WithKeyCons(y, r'[1..], key, v);
        var p := if key(x) == v then [x] else [];
        var a, b := WithKey(r[1..], key, v), WithKey(r'[1..], key, v);
        assert p + a == p + b;
        assert a == (p + a)[|p|..];
        assert b == (p + b)[|p|..];
      }
      StableSortIsUnique(r[1..], r'[1..], key);
      assert r == [x] + r[1..];
      assert r' == [y] + r'[1..];
    }
  }

  /** Whatever stable sort produced `r` from `s`, `r` is `SortBy(s, key)`. */
  lemma StableSortAgrees<T>(s: seq<T>, r: seq<T>, key: T -> int)
    requires SortedBy(r, key)
    requires forall v :: WithKey(r, key, v) == WithKey(s, key, v)
    ensures r == SortBy(s, key)
  {
    StableSortIsUnique(r, SortBy(s, key), key);
  }
}
