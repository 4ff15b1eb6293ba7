/**
 Stable sorting by an integer key, in the role of the standard library's `sort`,
 `sort_by_key` and `sort_by`.
 */
module Sorting {

  predicate SortedBy<T>(s: seq<T>, key: T -> int) {
    forall i, j :: 0 <= i < j < |s| ==> key(s[i]) <= key(s[j])
  }

  /** The elements with key k, in order. */
  function WithKey<T>(s: seq<T>, key: T -> int, k: int): seq<T> {
    if s == [] then []
    else (if key(s[0]) == k then [s[0]] else []) + WithKey(s[1..], key, k)
  }

  /** Puts x in front of the first element whose key is not smaller. */
  function Insert<T>(x: T, s: seq<T>, key: T -> int): (r: seq<T>)
    ensures multiset(r) == multiset{x} + multiset(s)
  {
    if s == [] || key(x) <= key(s[0]) then [x] + s
    else
      assert s == [s[0]] + s[1..];
      [s[0]] + Insert(x, s[1..], key)
  }

  function SortBy<T>(s: seq<T>, key: T -> int): (r: seq<T>)
    ensures multiset(r) == multiset(s)
  {
    if s == [] then []
    else
      assert s == [s[0]] + s[1..];
      Insert(s[0], SortBy(s[1..], key), key)
  }

  lemma SortedRest<T>(s: seq<T>, key: T -> int)
    requires SortedBy(s, key) && s != []
    ensures SortedBy(s[1..], key)
  {}

  lemma {:induction false} InsertSorted<T>(x: T, s: seq<T>, key: T -> int)
    requires SortedBy(s, key)
    ensures SortedBy(Insert(x, s, key), key)
  {
    if s == [] || key(x) <= key(s[0]) {
    } else {
      var r := Insert(x, s[1..], key);
      InsertSorted(x, s[1..], key);
      forall y | y in r
        ensures key(s[0]) <= key(y)
      {
        assert y in multiset(r);
        assert y == x || y in s[1..];
      }
    }
  }

  lemma {:induction false} SortBySorted<T>(s: seq<T>, key: T -> int)
    ensures SortedBy(SortBy(s, key), key)
  {
    if s == [] {
    } else {
      SortBySorted(s[1..], key);
      InsertSorted(s[0], SortBy(s[1..], key), key);
    }
  }

  lemma WithKeyCons<T>(x: T, s: seq<T>, key: T -> int, k: int)
    ensures WithKey([x] + s, key, k) == (if key(x) == k then [x] else []) + WithKey(s, key, k)
  {
    assert ([x] + s)[1..] == s;
  }

  lemma {:induction false} InsertStable<T>(x: T, s: seq<T>, key: T -> int, k: int)
    ensures WithKey(Insert(x, s, key), key, k) == WithKey([x] + s, key, k)
  {
    hide WithKey;
    if s == [] || key(x) <= key(s[0]) {
    } else {
      var t := Insert(x, s[1..], key);
      assert s == [s[0]] + s[1..] && Insert(x, s, key) == [s[0]] + t;
      InsertStable(x, s[1..], key, k);
      WithKeyCons(x, s, key, k);
      WithKeyCons(x, s[1..], key, k);
      WithKeyCons(s[0], s[1..], key, k);
      WithKeyCons(s[0], t, key, k);
      if key(x) == k {
        assert WithKey([s[0]] + t, key, k) == WithKey(t, key, k);
        assert WithKey(s, key, k) == WithKey(s[1..], key, k);
      } else {
        assert WithKey([x] + s, key, k) == WithKey(s, key, k);
        assert WithKey(t, key, k) == WithKey(s[1..], key, k);
      }
    }
  }

  /** Elements with equal keys keep their order. */
  lemma {:induction false} SortByStable<T>(s: seq<T>, key: T -> int, k: int)
    ensures WithKey(SortBy(s, key), key, k) == WithKey(s, key, k)
  {
    if s == [] {
    } else {
      SortByStable(s[1..], key, k);
      InsertStable(s[0], SortBy(s[1..], key), key, k);
      WithKeyCons(s[0], SortBy(s[1..], key), key, k);
    }
  }

  // ----- Numbers -----

  function Identity(n: int): int {
    n
  }

  predicate Ascending(s: seq<int>) {
    forall i, j :: 0 <= i < j < |s| ==> s[i] <= s[j]
  }

  function SortNumbers(s: seq<int>): seq<int> {
    SortBy(s, Identity)
  }

  lemma SortNumbersAscending(s: seq<int>)
    ensures Ascending(SortNumbers(s)) && multiset(SortNumbers(s)) == multiset(s)
  {
    SortBySorted(s, Identity);
    var r := SortNumbers(s);
    forall i, j | 0 <= i < j < |r|
      ensures r[i] <= r[j]
    {
      assert Identity(r[i]) <= Identity(r[j]);
    }
  }

  lemma HeadIsLeast(s: seq<int>, x: int)
    requires Ascending(s) && x in s
    ensures s[0] <= x
  {}

  lemma SameHead(a: seq<int>, b: seq<int>)
    requires multiset(a) == multiset(b) && Ascending(a) && Ascending(b) && a != []
    ensures b != [] && a[0] == b[0]
  {
    assert a[0] in multiset(a) && a[0] in multiset(b);
    assert a[0] in b;
    assert b[0] in multiset(b) && b[0] in multiset(a);
    HeadIsLeast(a, b[0]); HeadIsLeast(b, a[0]);
  }

  /** An ascending sequence is determined by its elements. */
  lemma {:induction false} AscendingUnique(a: seq<int>, b: seq<int>)
    requires multiset(a) == multiset(b) && Ascending(a) && Ascending(b)
    ensures a == b
  {
    if a == [] {
      if b != [] {
        SameHead(b, a);
      }
    } else {
      SameHead(a, b);
      RestElements(a); RestElements(b);
      RestAscending(a); RestAscending(b);
      hide Ascending;
      AscendingUnique(a[1..], b[1..]);
      assert a == [a[0]] + a[1..] && b == [b[0]] + b[1..];
    }
  }

  lemma RestAscending(s: seq<int>)
    requires Ascending(s) && s != []
    ensures Ascending(s[1..])
  {}

  lemma RestElements<T>(s: seq<T>)
    requires s != []
    ensures multiset(s[1..]) == multiset(s) - multiset{s[0]}
  {
    assert s == [s[0]] + s[1..];
  }
}
