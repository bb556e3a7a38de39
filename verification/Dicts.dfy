/** A dictionary that remembers the order in which its keys were first inserted. */
module Dicts {

  ghost predicate Distinct<T>(s: seq<T>) {
    forall i, j :: 0 <= i < j < |s| ==> s[i] != s[j]
  }

  function Without<T(==, !new)>(s: seq<T>, x: T): (r: seq<T>)
    ensures forall y :: y in r <==> y in s && y != x
    ensures Distinct(s) ==> Distinct(r)
    ensures |r| <= |s|
    ensures Distinct(s) && x in s ==> |r| == |s| - 1
    ensures x !in s ==> r == s
  {
    if s == [] then []
    else
      var rest := Without(s[1..], x);
      assert s == [s[0]] + s[1..];
      assert Distinct(s) ==> s[0] !in s[1..] && Distinct(s[1..]);
      if s[0] == x then rest else [s[0]] + rest
  }

  datatype Dict<K(==, !new), V> = Dict(keys: seq<K>, at: map<K, V>) {

    ghost predicate Wf() {
      Distinct(keys) && forall k :: k in keys <==> k in at
    }

    function Put(k: K, v: V): (d: Dict<K, V>)
      ensures Wf() ==> d.Wf()
    {
      Dict(if k in at then keys else keys + [k], at[k := v])
    }

    function Remove(k: K): (d: Dict<K, V>)
      ensures Wf() ==> d.Wf()
      ensures d.at == at - {k}
    {
      Dict(Without(keys, k), at - {k})
    }

    function Values(): (vs: seq<V>)
      requires Wf()
    {
      seq(|keys|, i requires 0 <= i < |keys| => assert keys[i] in keys; at[keys[i]])
    }
  }

  function Empty<K(==, !new), V>(): Dict<K, V> {
    Dict([], map[])
  }

  lemma {:induction false} DistinctCard<T>(s: seq<T>)
    requires Distinct(s)
    ensures |set x | x in s| == |s|
  {
    if s != [] {
      var k := |s| - 1;
      DistinctCard(s[..k]);
      assert s == s[..k] + [s[k]];
      assert (set x | x in s) == (set x | x in s[..k]) + {s[k]};
    }
  }

  lemma Card<T>(a: set<T>, b: set<T>)
    requires a <= b
    ensures |a| <= |b|
  {
    assert b == a + (b - a);
  }

  /** Writing the pairs one after the other. */
  ghost function PutAll<K, V>(m: map<K, V>, ks: seq<K>, vs: seq<V>): map<K, V>
    requires |ks| == |vs|
  {
    if ks == [] then m
    else
      var n := |ks| - 1;
      PutAll(m, ks[..n], vs[..n])[ks[n] := vs[n]]
  }

  lemma {:induction false} PutAllAt<K, V>(m: map<K, V>, ks: seq<K>, vs: seq<V>)
    requires |ks| == |vs|
    ensures PutAll(m, ks, vs).Keys == m.Keys + set k | k in ks
    ensures forall k <- m :: k !in ks ==> PutAll(m, ks, vs)[k] == m[k]
    ensures Distinct(ks) ==> forall i :: 0 <= i < |ks| ==> PutAll(m, ks, vs)[ks[i]] == vs[i]
    ensures forall k <- ks :: PutAll(m, ks, vs)[k] in vs
  {
    if ks != [] {
      var n := |ks| - 1;
      PutAllAt(m, ks[..n], vs[..n]);
      assert ks == ks[..n] + [ks[n]];
      assert vs == vs[..n] + [vs[n]];
    }
  }

  /** `m'` is `m` with new keys. */
  ghost predicate Grown<K(!new), V>(m: map<K, V>, ks: seq<K>, vs: seq<V>, m': map<K, V>) {
    && |ks| == |vs| && Distinct(ks)
    && (forall k :: k in m' <==> k in m || k in ks)
    && (forall k <- m :: m'[k] == m[k])
    && (forall i :: 0 <= i < |ks| ==> ks[i] !in m && m'[ks[i]] == vs[i])
  }

  lemma PutAllNew<K(!new), V>(m: map<K, V>, ks: seq<K>, vs: seq<V>)
    requires |ks| == |vs| && Distinct(ks) && forall k <- ks :: k !in m
    ensures Grown(m, ks, vs, PutAll(m, ks, vs))
  {
    PutAllAt(m, ks, vs);
  }

  /** The keys of a dictionary after values have been put under `ids`. */
  ghost function KeysPut<K>(keys: seq<K>, ids: seq<K>): seq<K> {
    if ids == [] then keys
    else
      var before, id := KeysPut(keys, ids[..|ids| - 1]), ids[|ids| - 1];
      if id in before then before else before + [id]
  }

  /** The dictionary after each of the first n values has been put under its key. */
  ghost function PutFirst<K(!new), V>(d: Dict<K, V>, ks: seq<K>, vs: seq<V>, n: nat): (r: Dict<K, V>)
    requires n <= |ks| && n <= |vs|
    ensures d.Wf() ==> r.Wf()
  {
    if n == 0 then d else PutFirst(d, ks, vs, n - 1).Put(ks[n - 1], vs[n - 1])
  }

  lemma {:induction false} PutFirstMeaning<K(!new), V>(d: Dict<K, V>, ks: seq<K>, vs: seq<V>, n: nat)
    requires n <= |ks| == |vs| && d.Wf()
    ensures PutFirst(d, ks, vs, n).at == PutAll(d.at, ks[..n], vs[..n])
    ensures PutFirst(d, ks, vs, n).keys == KeysPut(d.keys, ks[..n])
  {
    if n > 0 {
      PutFirstMeaning(d, ks, vs, n - 1);
      assert ks[..n][..n - 1] == ks[..n - 1] && vs[..n][..n - 1] == vs[..n - 1];
    }
  }

  lemma PutEachMeaning<K(!new), V>(d: Dict<K, V>, ks: seq<K>, vs: seq<V>)
    requires |ks| == |vs| && d.Wf()
    ensures PutFirst(d, ks, vs, |ks|).at == PutAll(d.at, ks, vs)
    ensures PutFirst(d, ks, vs, |ks|).keys == KeysPut(d.keys, ks)
  {
    PutFirstMeaning(d, ks, vs, |ks|);
    assert ks[..|ks|] == ks && vs[..|vs|] == vs;
  }

  lemma {:induction false} KeysPutNew<K>(keys: seq<K>, ids: seq<K>)
    requires Distinct(keys + ids)
    ensures KeysPut(keys, ids) == keys + ids
  {
    if ids != [] {
      var n := |ids| - 1;
      var all := keys + ids;
      assert keys + ids[..n] == all[..|all| - 1] && all[|all| - 1] == ids[n];
      KeysPutNew(keys, ids[..n]);
    }
  }
}
