/** Stable sorting by a key, as `sorted(xs, key=...)` and `xs.sort(key=...)` do it. */
module Sorting {
  import opened Dicts

  ghost predicate SortedBy<T>(s: seq<T>, key: T -> real) {
    forall i, j :: 0 <= i < j < |s| ==> key(s[i]) <= key(s[j])
  }

  function Insert<T>(x: T, s: seq<T>, key: T -> real): seq<T> {
    if s == [] || key(x) <= key(s[0]) then [x] + s else [s[0]] + Insert(x, s[1..], key)
  }

  function SortBy<T>(s: seq<T>, key: T -> real): seq<T> {
    if s == [] then [] else Insert(s[0], SortBy(s[1..], key), key)
  }

  lemma {:induction false} InsertIsSorted<T>(x: T, s: seq<T>, key: T -> real)
    requires SortedBy(s, key)
    ensures SortedBy(Insert(x, s, key), key)
  {
    if s != [] && key(x) > key(s[0]) {
      var rest := Insert(x, s[1..], key);
      InsertIsSorted(x, s[1..], key);
      InsertKeepsElements(x, s[1..], key);
      forall y | y in rest
        ensures key(s[0]) <= key(y)
      {
        assert y in multiset(rest);
        assert y in s[1..] || y == x;
      }
      ConsIsSorted(s[0], rest, key);
    }
  }

  lemma ConsIsSorted<T>(x: T, s: seq<T>, key: T -> real)
    requires SortedBy(s, key) && forall y <- s :: key(x) <= key(y)
    ensures SortedBy([x] + s, key)
  {
  }

  lemma {:induction false} InsertKeepsElements<T>(x: T, s: seq<T>, key: T -> real)
    ensures multiset(Insert(x, s, key)) == multiset(s) + multiset{x}
  {
    if s != [] && key(x) > key(s[0]) {
      InsertKeepsElements(x, s[1..], key);
      assert s == [s[0]] + s[1..];
    } else {
      assert multiset([x] + s) == multiset(s) + multiset{x};
    }
  }

  lemma {:induction false} SortIsSorted<T>(s: seq<T>, key: T -> real)
    ensures SortedBy(SortBy(s, key), key)
    ensures multiset(SortBy(s, key)) == multiset(s)
  {
    if s != [] {
      SortIsSorted(s[1..], key);
      InsertIsSorted(s[0], SortBy(s[1..], key), key);
      InsertKeepsElements(s[0], SortBy(s[1..], key), key);
      assert s == [s[0]] + s[1..];
    }
  }

  lemma SameElements<T>(s: seq<T>, t: seq<T>)
    requires multiset(s) == multiset(t)
    ensures |s| == |t| && forall x :: x in s <==> x in t
  {
    assert |multiset(s)| == |s| && |multiset(t)| == |t|;
    assert forall x :: x in s <==> x in multiset(s);
    assert forall x :: x in t <==> x in multiset(t);
  }

  lemma {:induction false} InsertIsDistinct<T>(x: T, s: seq<T>, key: T -> real)
    requires Distinct(s) && x !in s
    ensures Distinct(Insert(x, s, key)) && forall y :: y in Insert(x, s, key) <==> y == x || y in s
  {
    if s != [] && key(x) > key(s[0]) {
      InsertIsDistinct(x, s[1..], key);
      assert s == [s[0]] + s[1..];
      assert s[0] !in s[1..] && s[0] !in Insert(x, s[1..], key);
    }
  }

  lemma {:induction false} SortIsDistinct<T>(s: seq<T>, key: T -> real)
    requires Distinct(s)
    ensures Distinct(SortBy(s, key))
  {
    if s != [] {
      SortIsDistinct(s[1..], key);
      SortIsSorted(s[1..], key);
      SameElements(s[1..], SortBy(s[1..], key));
      InsertIsDistinct(s[0], SortBy(s[1..], key), key);
    }
  }

  /** The elements with this key, in their order. */
  function WithKey<T>(s: seq<T>, key: T -> real, k: real): seq<T> {
    if s == [] then [] else (if key(s[0]) == k then [s[0]] else []) + WithKey(s[1..], key, k)
  }

  lemma WithKeyCons<T>(x: T, s: seq<T>, key: T -> real, k: real)
    ensures WithKey([x] + s, key, k) == (if key(x) == k then [x] else []) + WithKey(s, key, k)
  {
    assert ([x] + s)[1..] == s;
  }

  lemma {:induction false} InsertIsStable<T>(x: T, s: seq<T>, key: T -> real, k: real)
    ensures WithKey(Insert(x, s, key), key, k) == (if key(x) == k then [x] else []) + WithKey(s, key, k)
  {
    if s == [] || key(x) <= key(s[0]) {
      WithKeyCons(x, s, key, k);
    } else {
      WithKeyCons(s[0], Insert(x, s[1..], key), key, k);
      InsertIsStable(x, s[1..], key, k);
    }
  }

  /** Elements with equal keys keep their order. */
  lemma {:induction false} SortIsStable<T>(s: seq<T>, key: T -> real, k: real)
    ensures WithKey(SortBy(s, key), key, k) == WithKey(s, key, k)
  {
    if s != [] {
      SortIsStable(s[1..], key, k);
      InsertIsStable(s[0], SortBy(s[1..], key), key, k);
    }
  }
}
