/** The cache of offline models and plugins: lookups, oldest-first eviction and its saved index. */
module OfflineCache {
  import opened Common
  import opened Dicts
  import opened Sorting

  datatype Entry = Entry(kind: string, id: string, path: string, size: real, cachedAt: real)

  type Entries = Dict<string, Entry>

  function Key(kind: string, id: string): string {
    kind + ":" + id
  }

  lemma LongerKind(kind: string, id: string, kind': string, id': string)
    requires ':' !in kind' && |kind| < |kind'|
    ensures Key(kind, id) != Key(kind', id')
  {
    assert Key(kind, id)[|kind|] == ':';
    assert Key(kind', id')[|kind|] == kind'[|kind|];
  }

  /** Models and plugins never share a key, and neither do two resources of one kind. */
  lemma KeysAreApart(kind: string, id: string, kind': string, id': string)
    requires ':' !in kind && ':' !in kind'
    ensures Key(kind, id) == Key(kind', id') <==> kind == kind' && id == id'
  {
    if |kind| < |kind'| {
      LongerKind(kind, id, kind', id');
    } else if |kind'| < |kind| {
      LongerKind(kind', id', kind, id);
    } else {
      assert kind == Key(kind, id)[..|kind|] && kind' == Key(kind', id')[..|kind'|];
      assert id == Key(kind, id)[|kind| + 1..] && id' == Key(kind', id')[|kind'| + 1..];
    }
  }

  function KeyOf(e: Entry): string {
    Key(e.kind, e.id)
  }

  /** Every entry is filed under its own key. */
  ghost predicate Keyed(d: Entries) {
    d.Wf() && forall k <- d.at :: KeyOf(d.at[k]) == k
  }

  function Sizes(s: seq<Entry>): real {
    if s == [] then 0.0 else Sizes(s[..|s| - 1]) + s[|s| - 1].size
  }

  // ----- the total size

  function SizesAt(keys: seq<string>, at: map<string, Entry>): real
    requires forall k <- keys :: k in at
  {
    if keys == [] then 0.0 else at[keys[0]].size + SizesAt(keys[1..], at)
  }

  function Total(d: Entries): real
    requires d.Wf()
  {
    SizesAt(d.keys, d.at)
  }

  lemma {:induction false} SizesWithout(keys: seq<string>, at: map<string, Entry>, x: string)
    requires Distinct(keys) && x in at && forall k <- keys :: k in at
    ensures SizesAt(Without(keys, x), at - {x}) == SizesAt(keys, at) - if x in keys then at[x].size else 0.0
  {
    if keys != [] {
      assert keys[0] !in keys[1..];
      SizesWithout(keys[1..], at, x);
    }
  }

  lemma TotalWithout(d: Entries, k: string)
    requires d.Wf() && k in d.at
    ensures Total(d.Remove(k)) == Total(d) - d.at[k].size
  {
    SizesWithout(d.keys, d.at, k);
  }

  // ----- oldest-first eviction

  function CachedAt(): Entry -> real {
    (e: Entry) => e.cachedAt
  }

  /** The order in which entries are given up. */
  function ByAge(d: Entries): seq<Entry>
    requires d.Wf()
  {
    SortBy(d.Values(), CachedAt())
  }

  /** The entries without the first k of `order`. */
  function Evict(d: Entries, order: seq<Entry>, k: nat): Entries
    requires k <= |order|
  {
    if k == 0 then d else Evict(d, order, k - 1).Remove(KeyOf(order[k - 1]))
  }

  /** `k` evictions are enough, and no smaller number would be, unless everything goes. */
  ghost predicate FewestEvictions(order: seq<Entry>, total: real, limit: real, k: nat) {
    && k <= |order|
    && (k == |order| || total - Sizes(order[..k]) <= limit)
    && NoFewer(order, total, limit, k)
  }

  ghost predicate NoFewer(order: seq<Entry>, total: real, limit: real, k: nat) {
    k <= |order| && forall j :: 0 <= j < k ==> total - Sizes(order[..j]) > limit
  }

  ghost predicate NoTwoShareAKey(s: seq<Entry>) {
    forall i, j :: 0 <= i < j < |s| ==> KeyOf(s[i]) != KeyOf(s[j])
  }

  lemma ByAgeIsAll(d: Entries)
    requires Keyed(d)
    ensures |ByAge(d)| == |d.keys| && SortedBy(ByAge(d), CachedAt()) && NoTwoShareAKey(ByAge(d))
    ensures forall e :: e in ByAge(d) <==> KeyOf(e) in d.at && d.at[KeyOf(e)] == e
  {
    var values := d.Values();
    forall i, j | 0 <= i < j < |values|
      ensures values[i] != values[j]
    {
      assert d.keys[i] in d.at && d.keys[j] in d.at && d.keys[i] != d.keys[j];
    }
    SortIsSorted(values, CachedAt());
    SortIsDistinct(values, CachedAt());
    SameElements(ByAge(d), values);
    forall e
      ensures e in values <==> KeyOf(e) in d.at && d.at[KeyOf(e)] == e
    {
      if KeyOf(e) in d.at && d.at[KeyOf(e)] == e {
        var i :| 0 <= i < |d.keys| && d.keys[i] == KeyOf(e);
        assert values[i] == e;
      }
      if e in values {
        var i :| 0 <= i < |values| && values[i] == e;
        assert d.keys[i] in d.at;
      }
    }
    forall i, j | 0 <= i < j < |ByAge(d)|
      ensures KeyOf(ByAge(d)[i]) != KeyOf(ByAge(d)[j])
    {
      assert ByAge(d)[i] in ByAge(d) && ByAge(d)[j] in ByAge(d);
    }
  }

  ghost predicate Among(e: Entry, s: seq<Entry>, k: nat) {
    k <= |s| && e in s[..k]
  }

  /** What is left: exactly the entries outside the prefix, and exactly their sizes. */
  ghost predicate Left(d: Entries, order: seq<Entry>, k: nat, left: Entries) {
    && k <= |order| && d.Wf() && Keyed(left)
    && (forall x :: x in left.at <==> x in d.at && !Among(d.at[x], order, k))
    && (forall x <- left.at :: x in d.at && left.at[x] == d.at[x])
    && Total(left) + Sizes(order[..k]) == Total(d)
  }

  /** `order` lists the entries of `d`, each under its key. */
  ghost predicate Orders(d: Entries, order: seq<Entry>) {
    && Keyed(d) && NoTwoShareAKey(order)
    && forall e <- order :: KeyOf(e) in d.at && d.at[KeyOf(e)] == e
  }

  lemma OneMore(order: seq<Entry>, k: nat, e: Entry)
    requires k < |order| && NoTwoShareAKey(order)
    ensures Among(e, order, k + 1) <==> Among(e, order, k) || e == order[k]
    ensures Sizes(order[..k + 1]) == Sizes(order[..k]) + order[k].size
    ensures !Among(order[k], order, k)
  {
    assert order[..k + 1] == order[..k] + [order[k]];
    assert order[..k + 1][..k] == order[..k];
  }

  lemma EvictStep(d: Entries, order: seq<Entry>, k: nat, left: Entries)
    requires Orders(d, order) && k < |order| && Left(d, order, k, left)
    ensures KeyOf(order[k]) in left.at && left.at[KeyOf(order[k])] == order[k]
    ensures Left(d, order, k + 1, left.Remove(KeyOf(order[k])))
  {
    var e := order[k];
    assert e in order;
    OneMore(order, k, e);
    TotalWithout(left, KeyOf(e));
    var after := left.Remove(KeyOf(e));
    forall x
      ensures x in after.at <==> x in d.at && !Among(d.at[x], order, k + 1)
    {
      if x in d.at {
        OneMore(order, k, d.at[x]);
        assert KeyOf(d.at[x]) == x;
      }
    }
  }

  lemma {:induction false} EvictMeaning(d: Entries, order: seq<Entry>, k: nat)
    requires Orders(d, order) && k <= |order|
    ensures Left(d, order, k, Evict(d, order, k))
  {
    if k == 0 {
      assert order[..0] == [];
    } else {
      EvictMeaning(d, order, k - 1);
      EvictStep(d, order, k - 1, Evict(d, order, k - 1));
    }
  }

  ghost predicate OldestWent(order: seq<Entry>, k: nat, left: Entries) {
    forall x, e :: x in left.at && Among(e, order, k) ==> e.cachedAt <= left.at[x].cachedAt
  }

  /**
   Evicting gives up exactly the shortest prefix of the oldest entries that brings the total
   within the limit, or everything: whatever stays is at least as young as whatever goes, and
   what was freed and what is left add up to what there was.
   */
  lemma EvictionIsMinimal(d: Entries, limit: real, k: nat)
    requires Keyed(d) && FewestEvictions(ByAge(d), Total(d), limit, k)
    ensures var left := Evict(d, ByAge(d), k);
            && Left(d, ByAge(d), k, left)
            && (Total(left) <= limit || left == Empty())
            && (k > 0 ==> Total(left) + ByAge(d)[k - 1].size > limit)
            && OldestWent(ByAge(d), k, left)
  {
    var order := ByAge(d);
    ByAgeIsAll(d);
    EvictMeaning(d, order, k);
    var left := Evict(d, order, k);
    forall x, e | x in left.at && Among(e, order, k)
      ensures e.cachedAt <= left.at[x].cachedAt
    {
      OldestGo(d, k, left, x, e);
    }
    EnoughGoes(d, order, limit, k, left);
  }

  lemma EnoughGoes(d: Entries, order: seq<Entry>, limit: real, k: nat, left: Entries)
    requires Keyed(d) && order == ByAge(d) && Left(d, order, k, left) && NoTwoShareAKey(order)
    requires FewestEvictions(order, Total(d), limit, k)
    ensures Total(left) <= limit || left == Empty()
    ensures k > 0 ==> Total(left) + order[k - 1].size > limit
  {
    if k > 0 {
      OneMore(order, k - 1, order[k - 1]);
    }
    if k == |order| {
      EverythingGoes(d, order, left);
    }
  }

  lemma OldestGo(d: Entries, k: nat, left: Entries, x: string, e: Entry)
    requires Keyed(d) && Left(d, ByAge(d), k, left) && x in left.at && Among(e, ByAge(d), k)
    ensures e.cachedAt <= left.at[x].cachedAt
  {
    var order := ByAge(d);
    ByAgeIsAll(d);
    assert KeyOf(left.at[x]) == x;
    assert left.at[x] in order;
    var i :| 0 <= i < |order| && order[i] == left.at[x];
    var j :| 0 <= j < k && order[j] == e;
    assert i >= k;
    assert CachedAt()(order[j]) <= CachedAt()(order[i]);
  }

  lemma EverythingGoes(d: Entries, order: seq<Entry>, left: Entries)
    requires Keyed(d) && order == ByAge(d) && Left(d, order, |order|, left)
    ensures left == Empty()
  {
    ByAgeIsAll(d);
    assert order[..|order|] == order;
    forall x
      ensures x !in left.at
    {
      if x in d.at {
        assert KeyOf(d.at[x]) == x;
        assert d.at[x] in order;
      }
    }
  }

  /** The eviction loop after some rounds. */
  datatype Round = Round(removed: nat, freed: real, total: real, entries: Entries)

  ghost predicate Evicting(d: Entries, order: seq<Entry>, limit: real, r: Round)
    requires d.Wf()
  {
    && r.removed <= |order| && r.entries == Evict(d, order, r.removed)
    && Left(d, order, r.removed, r.entries)
    && r.freed == Sizes(order[..r.removed]) && r.total + r.freed == Total(d)
    && NoFewer(order, Total(d), limit, r.removed)
  }

  /** An entry goes if its key is there: for an entry under another key, that is another entry. */
  function NextRound(r: Round, e: Entry): Round {
    if KeyOf(e) in r.entries.at
    then Round(r.removed + 1, r.freed + e.size, r.total - e.size, r.entries.Remove(KeyOf(e)))
    else r
  }

  function Rounds(order: seq<Entry>, limit: real, r: Round): Round {
    if order == [] || r.total <= limit then r else Rounds(order[1..], limit, NextRound(r, order[0]))
  }

  lemma RoundsEnd(order: seq<Entry>, limit: real, r: Round, i: nat)
    requires i <= |order| && (i == |order| || r.total <= limit)
    ensures Rounds(order[i..], limit, r) == r
  {
  }

  function FirstRound(d: Entries): Round
    requires d.Wf()
  {
    Round(0, 0.0, Total(d), d)
  }

  /** What the loop leaves, for any entries. */
  function CleanedUp(d: Entries, limit: real): Round
    requires d.Wf()
  {
    Rounds(ByAge(d), limit, FirstRound(d))
  }

  /** The running total and what was freed always add up. */
  lemma {:induction false} RoundsAddUp(order: seq<Entry>, limit: real, r: Round)
    ensures Rounds(order, limit, r).freed + Rounds(order, limit, r).total == r.freed + r.total
    ensures r.entries.Wf() ==> Rounds(order, limit, r).entries.Wf()
    ensures Rounds(order, limit, r).entries.at.Keys <= r.entries.at.Keys
  {
    if order != [] && r.total > limit {
      RoundsAddUp(order[1..], limit, NextRound(r, order[0]));
    }
  }

  lemma RoundsNext(order: seq<Entry>, limit: real, r: Round, i: nat)
    requires i < |order| && r.total > limit
    ensures Rounds(order[i..], limit, r) == Rounds(order[i + 1..], limit, NextRound(r, order[i]))
  {
    assert order[i..][1..] == order[i + 1..];
  }

  lemma RoundsStart(d: Entries, limit: real)
    requires Keyed(d)
    ensures Orders(d, ByAge(d)) && Evicting(d, ByAge(d), limit, FirstRound(d))
  {
    ByAgeIsAll(d);
    assert ByAge(d)[..0] == [];
  }

  lemma RoundGoesOn(d: Entries, order: seq<Entry>, limit: real, r: Round)
    requires Orders(d, order) && Evicting(d, order, limit, r)
    requires r.removed < |order| && r.total > limit
    ensures KeyOf(order[r.removed]) in r.entries.at
    ensures Evicting(d, order, limit, NextRound(r, order[r.removed]))
  {
    EvictStep(d, order, r.removed, r.entries);
    NextSize(order, r.removed);
    OneFewer(order, Total(d), limit, r.removed);
  }

  lemma NextSize(order: seq<Entry>, k: nat)
    requires k < |order|
    ensures Sizes(order[..k + 1]) == Sizes(order[..k]) + order[k].size
  {
    assert order[..k + 1][..k] == order[..k];
  }

  lemma OneFewer(order: seq<Entry>, total: real, limit: real, k: nat)
    requires NoFewer(order, total, limit, k) && k < |order| && total - Sizes(order[..k]) > limit
    ensures NoFewer(order, total, limit, k + 1)
  {
  }

  lemma LastRound(d: Entries, order: seq<Entry>, limit: real, r: Round)
    requires d.Wf() && Evicting(d, order, limit, r)
    requires r.removed == |order| || r.total <= limit
    ensures FewestEvictions(order, Total(d), limit, r.removed)
    ensures r.freed + r.total == Total(d) && r.total == Total(r.entries)
  {
  }

  ghost predicate RightCleanup(d: Entries, limit: real, r: Round)
    requires d.Wf()
  {
    && FewestEvictions(ByAge(d), Total(d), limit, r.removed)
    && r.entries == Evict(d, ByAge(d), r.removed)
    && r.freed == Sizes(ByAge(d)[..r.removed])
    && r.entries.Wf() && r.total == Total(r.entries) && r.freed + r.total == Total(d)
  }

  ghost predicate UnderWay(d: Entries, limit: real, r: Round) {
    Keyed(d) && Orders(d, ByAge(d)) && Evicting(d, ByAge(d), limit, r)
  }

  lemma GoesOn(d: Entries, limit: real, r: Round)
    requires d.Wf()
    ensures UnderWay(d, limit, r) && r.removed < |ByAge(d)| && r.total > limit ==>
              var next := NextRound(r, ByAge(d)[r.removed]);
              UnderWay(d, limit, next) && next.removed == r.removed + 1
    ensures UnderWay(d, limit, r) && (r.removed == |ByAge(d)| || r.total <= limit) ==> RightCleanup(d, limit, r)
  {
    if UnderWay(d, limit, r) {
      if r.removed < |ByAge(d)| && r.total > limit {
        RoundGoesOn(d, ByAge(d), limit, r);
      } else {
        LastRound(d, ByAge(d), limit, r);
      }
    }
  }

  lemma {:induction false} RoundsFrom(d: Entries, limit: real, r: Round)
    requires d.Wf() && r.removed <= |ByAge(d)|
    ensures UnderWay(d, limit, r) ==> RightCleanup(d, limit, Rounds(ByAge(d)[r.removed..], limit, r))
    decreases |ByAge(d)| - r.removed
  {
    GoesOn(d, limit, r);
    if UnderWay(d, limit, r) {
      if r.removed < |ByAge(d)| && r.total > limit {
        RoundsFrom(d, limit, NextRound(r, ByAge(d)[r.removed]));
        RoundsNext(ByAge(d), limit, r, r.removed);
      } else {
        RoundsEnd(ByAge(d), limit, r, r.removed);
      }
    }
  }

  /** When every entry is under its own key, a cleanup evicts the fewest oldest entries that bring
      the total within the limit, and reports exactly what it freed and what is left. */
  lemma CleanupIsRight(d: Entries, limit: real)
    requires Keyed(d)
    ensures RightCleanup(d, limit, CleanedUp(d, limit))
  {
    RoundsStart(d, limit);
    RoundsFrom(d, limit, FirstRound(d));
    assert ByAge(d)[0..] == ByAge(d);
  }

  // ----- the saved index

  /** Reading the index back, entry by entry, up to the i-th. */
  function Reloaded(index: Entries, i: nat): Entries
    requires index.Wf() && i <= |index.keys|
  {
    if i == 0 then Empty()
    else
      var k := index.keys[i - 1];
      assert k in index.keys;
      Reloaded(index, i - 1).Put(k, index.at[k])
  }

  ghost predicate StartOf(index: Entries, i: nat, d: Entries) {
    && i <= |index.keys| && d.keys == index.keys[..i]
    && (forall k :: k in d.at <==> k in index.keys[..i])
    && (forall k <- d.at :: k in index.at && d.at[k] == index.at[k])
  }

  lemma {:induction false} ReloadedIsStart(index: Entries, i: nat)
    requires index.Wf() && i <= |index.keys|
    ensures StartOf(index, i, Reloaded(index, i))
  {
    if i > 0 {
      ReloadedIsStart(index, i - 1);
      StartGrows(index, i - 1, Reloaded(index, i - 1));
    }
  }

  lemma StartGrows(index: Entries, i: nat, d: Entries)
    requires index.Wf() && i < |index.keys| && index.keys[i] in index.at
    ensures StartOf(index, i, d) ==> StartOf(index, i + 1, d.Put(index.keys[i], index.at[index.keys[i]]))
  {
    assert index.keys[..i + 1] == index.keys[..i] + [index.keys[i]];
  }

  /** What was saved is what is loaded, in the same order. */
  lemma ReloadIsExact(index: Entries)
    requires index.Wf()
    ensures Reloaded(index, |index.keys|) == index
  {
    ReloadedIsStart(index, |index.keys|);
    assert index.keys[..|index.keys|] == index.keys;
  }

  function Reload(index: Option<Entries>): Entries
    requires index.Some? ==> index.value.Wf()
  {
    if index.Some? then Reloaded(index.value, |index.value.keys|) else Empty()
  }

  /** A right cleanup, after which every entry is still under its own key. */
  ghost predicate CleansUp(d: Entries, limit: real, r: Round)
    requires d.Wf()
  {
    RightCleanup(d, limit, r) && Keyed(r.entries)
  }

  class OfflineCache {
    var entries: Entries
    var index: Option<Entries>
    var hits: nat
    var misses: nat
    const ttl: real

    /** The index on disk always reloads to the entries in memory. */
    ghost predicate Valid()
      reads this
    {
      entries.Wf() && (index.Some? ==> index.value.Wf()) && Reload(index) == entries
    }

    constructor (index: Option<Entries>, ttl: real)
      requires index.Some? ==> index.value.Wf()
      ensures Valid() && this.index == index && this.ttl == ttl
      ensures entries == (if index.Some? then index.value else Empty())
      ensures hits == 0 && misses == 0
    {
      this.index, this.ttl := index, ttl;
      entries, hits, misses := Empty(), 0, 0;
      new;
      if index.Some? {
        var i := 0;
        while i < |index.value.keys|
          invariant i <= |index.value.keys|
          invariant entries == Reloaded(index.value, i)
          invariant this.index == index && hits == 0 && misses == 0
        {
          var k := index.value.keys[i];
          assert k in index.value.keys;
          entries := entries.Put(k, index.value.at[k]);
          i := i + 1;
        }
        ReloadIsExact(index.value);
      }
    }

    method SaveIndex()
      requires entries.Wf()
      modifies this`index
      ensures Valid() && index == Some(entries)
    {
      index := Some(entries);
      ReloadIsExact(entries);
    }

    /** Models and plugins are cached alike. */
    method CacheResource(kind: string, id: string, path: string, size: real, now: real)
      requires Valid()
      modifies this
      ensures Valid() && hits == old(hits) && misses == old(misses)
      ensures entries == old(entries).Put(Key(kind, id), Entry(kind, id, path, size, now))
      ensures old(Keyed(entries)) ==> Keyed(entries)
    {
      entries := entries.Put(Key(kind, id), Entry(kind, id, path, size, now));
      SaveIndex();
    }

    /** `onDisk` says whether the path of the entry still exists. */
    method Get(kind: string, id: string, asked: Option<real>, now: real, onDisk: bool) returns (found: Option<Entry>)
      requires Valid()
      modifies this
      ensures Valid()
      ensures var key, effective := Key(kind, id), if asked.Some? then asked.value else ttl;
              && (found.Some? <==> key in old(entries).at && onDisk
                                   && (effective <= 0.0 || now - old(entries).at[key].cachedAt <= effective))
              && (found.Some? ==> entries == old(entries) && found.value == entries.at[key])
              && (found.None? ==> entries.at == old(entries).at - {key})
      ensures old(Keyed(entries)) ==> Keyed(entries)
      ensures hits + misses == old(hits + misses) + 1 && (hits > old(hits) <==> found.Some?)
    {
      var key := Key(kind, id);
      if key !in entries.at {
        misses := misses + 1;
        return None;
      }
      var effective := if asked.Some? then asked.value else ttl;
      if effective > 0.0 && now - entries.at[key].cachedAt > effective {
        Forget(key);
        return None;
      }
      if !onDisk {
        Forget(key);
        return None;
      }
      hits := hits + 1;
      return Some(entries.at[key]);
    }

    method Forget(key: string)
      requires Valid()
      modifies this
      ensures Valid() && entries == old(entries).Remove(key)
      ensures hits == old(hits) && misses == old(misses) + 1
    {
      entries := entries.Remove(key);
      SaveIndex();
      misses := misses + 1;
    }

    /** Evict oldest entries until the total is within the limit. */
    method CleanupCache(limit: real) returns (removed: nat, freed: real, total: real)
      requires Valid()
      modifies this
      ensures Valid() && hits == old(hits) && misses == old(misses)
      ensures Round(removed, freed, total, entries) == CleanedUp(old(entries), limit)
      ensures freed + total == Total(old(entries)) && entries.at.Keys <= old(entries).at.Keys
      ensures old(Keyed(entries)) ==> CleansUp(old(entries), limit, Round(removed, freed, total, entries))
    {
      var order, r := ByAge(entries), FirstRound(entries);
      RoundsAddUp(order, limit, r);
      CleanupKeepsKeys(entries, limit);
      if r.total <= limit {
        return 0, 0.0, r.total;
      }
      var i := 0;
      assert order[0..] == order;
      while i < |order| && r.total > limit
        invariant i <= |order|
        invariant Rounds(order[i..], limit, r) == CleanedUp(old(entries), limit)
        invariant hits == old(hits) && misses == old(misses)
      {
        RoundsNext(order, limit, r, i);
        r := NextRound(r, order[i]);
        i := i + 1;
      }
      entries := r.entries;
      SaveIndex();
      return r.removed, r.freed, r.total;
    }
  }

  lemma CleanupKeepsKeys(d: Entries, limit: real)
    requires d.Wf()
    ensures Keyed(d) ==> CleansUp(d, limit, CleanedUp(d, limit))
  {
    if Keyed(d) {
      CleanupIsRight(d, limit);
      ByAgeIsAll(d);
      EvictMeaning(d, ByAge(d), CleanedUp(d, limit).removed);
    }
  }

  // ----- entries under other keys

  /** The loop after i turns, had it not stopped before. */
  function Turns(order: seq<Entry>, r: Round, i: nat): Round
    requires i <= |order|
  {
    if i == 0 then r else NextRound(Turns(order, r, i - 1), order[i - 1])
  }

  lemma RemoveMissing(d: Entries, k: string)
    requires d.Wf() && k !in d.at
    ensures d.Remove(k) == d
  {
    assert k !in d.keys;
  }

  /** For any entries, the loop has removed the keys of the entries it has looked at. */
  lemma {:induction false} TurnsEvict(order: seq<Entry>, r: Round, i: nat)
    requires i <= |order| && r.entries.Wf()
    ensures Turns(order, r, i).entries == Evict(r.entries, order, i) && Turns(order, r, i).entries.Wf()
  {
    if i > 0 {
      TurnsEvict(order, r, i - 1);
      var before := Turns(order, r, i - 1).entries;
      if KeyOf(order[i - 1]) !in before.at {
        RemoveMissing(before, KeyOf(order[i - 1]));
      }
    }
  }

  /** The loop stops at the first turn at which the running total is within the limit. */
  ghost predicate StopsAfter(order: seq<Entry>, limit: real, r: Round, i: nat) {
    && i <= |order| && (i == |order| || Turns(order, r, i).total <= limit)
    && forall j :: 0 <= j < i ==> Turns(order, r, j).total > limit
  }

  lemma {:induction false} RoundsAreTurns(order: seq<Entry>, limit: real, r: Round, i: nat) returns (k: nat)
    requires i <= |order| && forall j :: 0 <= j < i ==> Turns(order, r, j).total > limit
    ensures StopsAfter(order, limit, r, k) && Rounds(order[i..], limit, Turns(order, r, i)) == Turns(order, r, k)
    decreases |order| - i
  {
    if i == |order| || Turns(order, r, i).total <= limit {
      k := i;
      RoundsEnd(order, limit, Turns(order, r, i), i);
    } else {
      RoundsNext(order, limit, Turns(order, r, i), i);
      k := RoundsAreTurns(order, limit, r, i + 1);
    }
  }

  /** For any entries and limit, a cleanup is some number of turns, and leaves what they leave. */
  lemma CleanupIsTurns(d: Entries, limit: real) returns (k: nat)
    requires d.Wf()
    ensures StopsAfter(ByAge(d), limit, FirstRound(d), k)
    ensures CleanedUp(d, limit) == Turns(ByAge(d), FirstRound(d), k)
    ensures CleanedUp(d, limit).entries == Evict(d, ByAge(d), k)
  {
    k := RoundsAreTurns(ByAge(d), limit, FirstRound(d), 0);
    assert ByAge(d)[0..] == ByAge(d);
    TurnsEvict(ByAge(d), FirstRound(d), k);
  }

  /** After k turns exactly the k oldest entries are gone. */
  ghost predicate OldestAreGone(d: Entries, k: nat)
    requires d.Wf() && k <= |ByAge(d)|
  {
    forall x :: x in Evict(d, ByAge(d), k).at <==> x in d.at && !Among(d.at[x], ByAge(d), k)
  }

  lemma ByAgeLists(d: Entries, x: string)
    requires d.Wf() && x in d.at
    ensures d.at[x] in ByAge(d)
  {
    SortIsSorted(d.Values(), CachedAt());
    SameElements(ByAge(d), d.Values());
    var i :| 0 <= i < |d.keys| && d.keys[i] == x;
    assert d.Values()[i] == d.at[x];
  }

  lemma {:induction false} FirstPosition(s: seq<Entry>, e: Entry) returns (i: nat)
    requires e in s
    ensures i < |s| && s[i] == e && !Among(e, s, i) && Among(e, s, i + 1)
  {
    if s[0] == e {
      i := 0;
    } else {
      assert s == [s[0]] + s[1..];
      i := FirstPosition(s[1..], e);
      assert s[..i + 1] == [s[0]] + s[1..][..i] && s[..i + 2] == [s[0]] + s[1..][..i + 1];
      i := i + 1;
    }
  }

  /** An entry under another key is still there after the turn that was to remove it. */
  lemma MisfiledStays(d: Entries, x: string) returns (k: nat)
    requires d.Wf() && x in d.at && KeyOf(d.at[x]) != x
    ensures k <= |ByAge(d)| && !OldestAreGone(d, k)
  {
    ByAgeLists(d, x);
    var i := FirstPosition(ByAge(d), d.at[x]);
    if x in Evict(d, ByAge(d), i).at {
      k := i + 1;
      assert x in Evict(d, ByAge(d), k).at;
    } else {
      k := i;
    }
  }

  /** Eviction takes exactly the oldest entries, however far it has to go, if and only if every entry
      is under its own key. */
  lemma OldestGoExactly(d: Entries)
    requires d.Wf()
    ensures (forall k: nat :: k <= |ByAge(d)| ==> OldestAreGone(d, k)) <==> Keyed(d)
  {
    if Keyed(d) {
      ByAgeIsAll(d);
      forall k: nat | k <= |ByAge(d)|
        ensures OldestAreGone(d, k)
      {
        EvictMeaning(d, ByAge(d), k);
      }
    } else {
      var x :| x in d.at && KeyOf(d.at[x]) != x;
      var k := MisfiledStays(d, x);
    }
  }

  lemma SizesOfTwo(k1: string, k2: string, at: map<string, Entry>)
    requires k1 in at && k2 in at
    ensures SizesAt([k1, k2], at) == at[k1].size + at[k2].size && SizesAt([k1], at) == at[k1].size
  {
    assert [k1, k2][1..] == [k2] && [k2][1..] == [] && [k1][1..] == [];
    assert SizesAt([k2], at) == at[k2].size;
  }

  /** Two entries of which the first lies under another key, but has the key of the second. */
  function Misfiled(): (d: Entries)
    ensures d.Wf()
  {
    assert "model:a"[6] != "model:b"[6];
    Dict(["model:a", "model:b"],
         map["model:a" := Entry("model", "b", "", 1.0, 0.0), "model:b" := Entry("model", "b", "", 5.0, 1.0)])
  }

  lemma MisfiledOrder(d: Entries)
    requires d == Misfiled()
    ensures ByAge(d) == [d.at["model:a"], d.at["model:b"]] && Total(d) == 6.0
    ensures KeyOf(d.at["model:a"]) == "model:b"
  {
    var small, large := d.at["model:a"], d.at["model:b"];
    assert "model:a"[6] != "model:b"[6];
    assert d.Values() == [small, large];
    assert [small, large][1..] == [large] && SortBy([large], CachedAt()) == [large];
    SizesOfTwo("model:a", "model:b", d.at);
  }

  /** An index that shows it: the larger and younger entry goes in place of the older, the size of
      the older is taken off, and the total reported is not that of what is left. */
  lemma MisfiledIsMiscounted()
    ensures var r := CleanedUp(Misfiled(), 5.0);
            r.entries.Wf() && r.total == 5.0 && Total(r.entries) == 1.0
  {
    var d := Misfiled();
    MisfiledOrder(d);
    var small, large := d.at["model:a"], d.at["model:b"];
    var first := FirstRound(d);
    var r := NextRound(first, small);
    assert [small, large][0..] == [small, large] && [small, large][1..] == [large];
    RoundsNext([small, large], 5.0, first, 0);
    assert Without(["model:a", "model:b"], "model:b") == ["model:a"] by {
      assert "model:a"[6] != "model:b"[6];
      assert ["model:a", "model:b"][1..] == ["model:b"] && Without(["model:b"], "model:b") == [];
    }
    SizesOfTwo("model:a", "model:a", r.entries.at);
  }
}
