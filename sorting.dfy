/**
 * `sort_values(by=[column])` on an integer column, as a stable insertion sort over a key
 * function: the frames sort rows by `ts`, the CAMS gap table sorts gaps by `ini`.
 */
module Sorting {
  predicate SortedBy<T>(key: T -> int, s: seq<T>) {
    forall i, j :: 0 <= i < j < |s| ==> key(s[i]) <= key(s[j])
  }

  /** `x` placed before the first element whose key is not smaller. */
  function InsertBy<T>(key: T -> int, x: T, s: seq<T>): seq<T>
    decreases |s|
  {
    if s == [] || key(x) <= key(s[0]) then [x] + s
    else [s[0]] + InsertBy(key, x, s[1..])
  }

  /**
   * The elements ordered by `key`. pandas' default sort is not stable; the model fixes the
   * stable order, one of the orders it may produce.
   */
  function SortBy<T>(key: T -> int, s: seq<T>): seq<T>
    decreases |s|
  {
    if s == [] then [] else InsertBy(key, s[0], SortBy(key, s[1..]))
  }

  predicate AllFrom<T>(key: T -> int, s: seq<T>, lo: int) {
    forall i :: 0 <= i < |s| ==> lo <= key(s[i])
  }

  lemma {:induction false} InsertFrom<T>(key: T -> int, x: T, s: seq<T>, lo: int)
    requires lo <= key(x) && AllFrom(key, s, lo)
    ensures AllFrom(key, InsertBy(key, x, s), lo)
    decreases |s|
  {
    if s != [] && key(x) > key(s[0]) {
      InsertFrom(key, x, s[1..], lo);
      var tail := InsertBy(key, x, s[1..]);
      assert InsertBy(key, x, s) == [s[0]] + tail;
    }
  }

  lemma SortedCons<T>(key: T -> int, x: T, s: seq<T>)
    requires SortedBy(key, s) && AllFrom(key, s, key(x))
    ensures SortedBy(key, [x] + s)
  {
    var r := [x] + s;
    forall i, j | 0 <= i < j < |r| ensures key(r[i]) <= key(r[j]) {
      assert r[j] == s[j - 1];
      if i > 0 {
        assert r[i] == s[i - 1];
      }
    }
  }

  lemma {:induction false} InsertSorted<T>(key: T -> int, x: T, s: seq<T>)
    requires SortedBy(key, s)
    ensures SortedBy(key, InsertBy(key, x, s))
    decreases |s|
  {
    if s == [] || key(x) <= key(s[0]) {
      SortedCons(key, x, s);
    } else {
      InsertSorted(key, x, s[1..]);
      InsertFrom(key, x, s[1..], key(s[0]));
      SortedCons(key, s[0], InsertBy(key, x, s[1..]));
    }
  }

  lemma {:induction false} InsertPerm<T>(key: T -> int, x: T, s: seq<T>)
    ensures multiset(InsertBy(key, x, s)) == multiset(s) + multiset{x}
    decreases |s|
  {
    if s != [] && key(x) > key(s[0]) {
      InsertPerm(key, x, s[1..]);
      assert s == [s[0]] + s[1..];
    }
  }

  /** Sorting orders the elements by their key and keeps exactly the same elements. */
  lemma {:induction false} SortBySpec<T>(key: T -> int, s: seq<T>)
    ensures SortedBy(key, SortBy(key, s))
    ensures multiset(SortBy(key, s)) == multiset(s)
    decreases |s|
  {
    if s != [] {
      SortBySpec(key, s[1..]);
      InsertSorted(key, s[0], SortBy(key, s[1..]));
      InsertPerm(key, s[0], SortBy(key, s[1..]));
      assert s == [s[0]] + s[1..];
    }
  }

  /** The same number of elements, and the same elements. */
  lemma SortByMembers<T>(key: T -> int, s: seq<T>)
    ensures |SortBy(key, s)| == |s|
    ensures forall x :: x in SortBy(key, s) <==> x in s
  {
    SortBySpec(key, s);
    assert |multiset(SortBy(key, s))| == |multiset(s)|;
    forall x ensures x in SortBy(key, s) <==> x in s {
      assert x in SortBy(key, s) <==> x in multiset(SortBy(key, s));
    }
  }
}
