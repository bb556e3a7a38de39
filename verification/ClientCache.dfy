/**
 The least-recently-used client cache of session/engine.py, against the history of the
 sessions that were touched (created or chatted with) and dropped (deleted).
 */
module ClientCache {
  import opened Dicts

  const MAX_CACHED_CLIENTS: nat := 32

  type SessionId = string

  datatype Event = Touched(id: SessionId) | Dropped(id: SessionId)

  /** The position of the last event about a session, or -1. */
  function LastEvent(events: seq<Event>, id: SessionId): (k: int)
    ensures -1 <= k < |events|
    ensures k >= 0 ==> events[k].id == id
  {
    if events == [] then -1
    else if events[|events| - 1].id == id then |events| - 1
    else LastEvent(events[..|events| - 1], id)
  }

  /** The session was touched, and not dropped since. */
  predicate Live(events: seq<Event>, id: SessionId) {
    LastEvent(events, id) >= 0 && events[LastEvent(events, id)].Touched?
  }

  /** The sessions touched after the last event about `id`. */
  function TouchedSince(events: seq<Event>, id: SessionId): set<SessionId> {
    set k | LastEvent(events, id) < k < |events| && events[k].Touched? :: events[k].id
  }

  ghost predicate ByLastTouch(events: seq<Event>, cache: seq<SessionId>) {
    forall i, j :: 0 <= i < j < |cache| ==> LastEvent(events, cache[i]) < LastEvent(events, cache[j])
  }

  /** Cached clients are those of live sessions, in the order of their last touch; a live
      session is missing only if that many others were touched since its own last touch. */
  ghost predicate CacheInv(events: seq<Event>, cache: seq<SessionId>, max: nat) {
    && Distinct(cache)
    && (forall id <- cache :: Live(events, id))
    && ByLastTouch(events, cache)
    && (forall id :: Live(events, id) && id !in cache ==> |TouchedSince(events, id)| >= max)
  }

  lemma LastEventSnoc(events: seq<Event>, e: Event, id: SessionId)
    ensures LastEvent(events + [e], id) == if e.id == id then |events| else LastEvent(events, id)
  {
    assert (events + [e])[..|events|] == events;
  }

  lemma LiveSnoc(events: seq<Event>, e: Event, id: SessionId)
    ensures Live(events + [e], id) <==> if e.id == id then e.Touched? else Live(events, id)
  {
    LastEventSnoc(events, e, id);
  }

  lemma TouchedSinceGrows(events: seq<Event>, e: Event, id: SessionId)
    requires e.id != id
    ensures TouchedSince(events, id) <= TouchedSince(events + [e], id)
  {
    LastEventSnoc(events, e, id);
    var events' := events + [e];
    forall y | y in TouchedSince(events, id)
      ensures y in TouchedSince(events', id)
    {
      var k :| LastEvent(events, id) < k < |events| && events[k].Touched? && events[k].id == y;
      assert events'[k] == events[k];
    }
  }

  /** What stays true of a session that is not cached, when something else happens. */
  lemma StillMissed(events: seq<Event>, e: Event, id: SessionId, max: nat)
    requires e.id != id && |TouchedSince(events, id)| >= max
    ensures |TouchedSince(events + [e], id)| >= max
  {
    TouchedSinceGrows(events, e, id);
    Card(TouchedSince(events, id), TouchedSince(events + [e], id));
  }

  /** `move_to_end`, after an insertion if need be. */
  function MovedToEnd(cache: seq<SessionId>, id: SessionId): seq<SessionId> {
    Without(cache, id) + [id]
  }

  lemma OrderCons(events: seq<Event>, x: SessionId, rest: seq<SessionId>)
    requires ByLastTouch(events, rest) && forall y <- rest :: LastEvent(events, x) < LastEvent(events, y)
    ensures ByLastTouch(events, [x] + rest)
  {
    var cache := [x] + rest;
    forall i, j | 0 <= i < j < |cache|
      ensures LastEvent(events, cache[i]) < LastEvent(events, cache[j])
    {
      assert cache[j] == rest[j - 1];
      if i > 0 {
        assert cache[i] == rest[i - 1];
      }
    }
  }

  lemma OrderTail(events: seq<Event>, cache: seq<SessionId>)
    requires ByLastTouch(events, cache) && cache != []
    ensures ByLastTouch(events, cache[1..])
    ensures forall y <- cache[1..] :: LastEvent(events, cache[0]) < LastEvent(events, y)
  {
    forall y | y in cache[1..]
      ensures LastEvent(events, cache[0]) < LastEvent(events, y)
    {
      var i :| 0 <= i < |cache| - 1 && cache[1..][i] == y;
      assert cache[i + 1] == y;
    }
  }

  lemma {:induction false} WithoutKeepsOrder(events: seq<Event>, cache: seq<SessionId>, id: SessionId)
    requires ByLastTouch(events, cache)
    ensures ByLastTouch(events, Without(cache, id))
  {
    if cache != [] {
      OrderTail(events, cache);
      WithoutKeepsOrder(events, cache[1..], id);
      OrderCons(events, cache[0], Without(cache[1..], id));
    }
  }

  lemma SameOrder(events: seq<Event>, e: Event, cache: seq<SessionId>)
    requires ByLastTouch(events, cache) && e.id !in cache
    ensures ByLastTouch(events + [e], cache)
  {
    forall i | 0 <= i < |cache|
      ensures LastEvent(events + [e], cache[i]) == LastEvent(events, cache[i])
    {
      LastEventSnoc(events, e, cache[i]);
    }
  }

  lemma DropKeepsInv(events: seq<Event>, cache: seq<SessionId>, id: SessionId, max: nat)
    requires CacheInv(events, cache, max)
    ensures CacheInv(events + [Dropped(id)], Without(cache, id), max)
  {
    WithoutKeepsOrder(events, cache, id);
    SameOrder(events, Dropped(id), Without(cache, id));
    forall x
      ensures Live(events + [Dropped(id)], x) <==> x != id && Live(events, x)
      ensures x != id && Live(events, x) && x !in cache ==> |TouchedSince(events + [Dropped(id)], x)| >= max
    {
      LiveSnoc(events, Dropped(id), x);
      if x != id && Live(events, x) && x !in cache {
        StillMissed(events, Dropped(id), x, max);
      }
    }
  }

  /** Before eviction. */
  lemma TouchKeepsInv(events: seq<Event>, cache: seq<SessionId>, id: SessionId, max: nat)
    requires CacheInv(events, cache, max)
    ensures CacheInv(events + [Touched(id)], MovedToEnd(cache, id), max)
  {
    var e, rest := Touched(id), Without(cache, id);
    WithoutKeepsOrder(events, cache, id);
    SameOrder(events, e, rest);
    LastEventSnoc(events, e, id);
    forall i | 0 <= i < |rest|
      ensures LastEvent(events + [e], rest[i]) < |events|
    {
      LastEventSnoc(events, e, rest[i]);
    }
    forall x
      ensures Live(events + [e], x) <==> x == id || Live(events, x)
      ensures x != id && Live(events, x) && x !in cache ==> |TouchedSince(events + [e], x)| >= max
    {
      LiveSnoc(events, e, x);
      if x != id && Live(events, x) && x !in cache {
        StillMissed(events, e, x, max);
      }
    }
  }

  /** `popitem(last=False)` when the cache is over full: whoever goes has been overtaken by
      all the others. */
  lemma EvictionKeepsInv(events: seq<Event>, cache: seq<SessionId>, max: nat)
    requires CacheInv(events, cache, max) && |cache| > max
    ensures CacheInv(events, cache[1..], max)
  {
    var gone, rest := cache[0], cache[1..];
    forall x | x in rest
      ensures x in TouchedSince(events, gone)
    {
      var i :| 0 <= i < |rest| && rest[i] == x;
      assert cache[i + 1] in cache && LastEvent(events, cache[0]) < LastEvent(events, cache[i + 1]);
      assert events[LastEvent(events, x)].id == x;
    }
    DistinctCard(rest);
    Card((set x <- rest), TouchedSince(events, gone));
  }

  /** `while len > max: popitem(last=False)` */
  function Evicted(cache: seq<SessionId>, max: nat): seq<SessionId> {
    if |cache| > max then Evicted(cache[1..], max) else cache
  }

  lemma {:induction false} EvictedKeepsInv(events: seq<Event>, cache: seq<SessionId>, max: nat)
    requires CacheInv(events, cache, max)
    ensures CacheInv(events, Evicted(cache, max), max) && |Evicted(cache, max)| <= max
  {
    if |cache| > max {
      EvictionKeepsInv(events, cache, max);
      EvictedKeepsInv(events, cache[1..], max);
    }
  }

  /** The cache after any sequence of touches and drops. */
  function CacheAfter(events: seq<Event>, max: nat): seq<SessionId> {
    if events == [] then []
    else
      var before, e := CacheAfter(events[..|events| - 1], max), events[|events| - 1];
      match e
      case Touched(id) => Evicted(MovedToEnd(before, id), max)
      case Dropped(id) => Without(before, id)
  }

  /** Over every run: at most `max` clients are cached, in the order of their last touch, and
      a session that was touched is still cached unless it was dropped since or at least
      `max` distinct others were touched since. */
  lemma {:induction false} LruOverRuns(events: seq<Event>, max: nat)
    ensures CacheInv(events, CacheAfter(events, max), max) && |CacheAfter(events, max)| <= max
  {
    if events != [] {
      var front, e := events[..|events| - 1], events[|events| - 1];
      LruOverRuns(front, max);
      assert events == front + [e];
      match e
      case Touched(id) =>
        TouchKeepsInv(front, CacheAfter(front, max), id, max);
        EvictedKeepsInv(events, MovedToEnd(CacheAfter(front, max), id), max);
      case Dropped(id) =>
        DropKeepsInv(front, CacheAfter(front, max), id, max);
    }
  }

  // ----- runs in which no session is deleted

  ghost predicate NoDrops(events: seq<Event>) {
    forall e <- events :: e.Touched?
  }

  /** Whatever was touched and is not cached was touched before everything that is. */
  ghost predicate CachedAreNewest(events: seq<Event>, cache: seq<SessionId>) {
    forall x, y :: x in cache && Live(events, y) && y !in cache ==> LastEvent(events, y) < LastEvent(events, x)
  }

  lemma TouchKeepsNewest(events: seq<Event>, cache: seq<SessionId>, id: SessionId)
    requires CachedAreNewest(events, cache)
    ensures CachedAreNewest(events + [Touched(id)], MovedToEnd(cache, id))
  {
    forall x, y | x in MovedToEnd(cache, id) && Live(events + [Touched(id)], y) && y !in MovedToEnd(cache, id)
      ensures LastEvent(events + [Touched(id)], y) < LastEvent(events + [Touched(id)], x)
    {
      LastEventSnoc(events, Touched(id), x);
      LastEventSnoc(events, Touched(id), y);
      LiveSnoc(events, Touched(id), y);
    }
  }

  lemma {:induction false} EvictionKeepsNewest(events: seq<Event>, cache: seq<SessionId>, max: nat)
    requires CachedAreNewest(events, cache) && ByLastTouch(events, cache)
    ensures CachedAreNewest(events, Evicted(cache, max))
  {
    if |cache| > max {
      OrderTail(events, cache);
      FirstIsOldest(events, cache);
      EvictionKeepsNewest(events, cache[1..], max);
    }
  }

  lemma FirstIsOldest(events: seq<Event>, cache: seq<SessionId>)
    requires CachedAreNewest(events, cache) && cache != []
    requires forall x <- cache[1..] :: LastEvent(events, cache[0]) < LastEvent(events, x)
    ensures CachedAreNewest(events, cache[1..])
  {
    assert cache == [cache[0]] + cache[1..];
  }

  lemma {:induction false} NewestAreCached(events: seq<Event>, max: nat)
    requires NoDrops(events)
    ensures CachedAreNewest(events, CacheAfter(events, max))
  {
    if events != [] {
      var front, e := events[..|events| - 1], events[|events| - 1];
      assert events == front + [e] && e in events;
      assert forall x <- front :: x in events;
      NewestAreCached(front, max);
      LruOverRuns(front, max);
      TouchKeepsInv(front, CacheAfter(front, max), e.id, max);
      TouchKeepsNewest(front, CacheAfter(front, max), e.id);
      EvictionKeepsNewest(events, MovedToEnd(CacheAfter(front, max), e.id), max);
    }
  }

  /** As long as no session is deleted, a session is cached if and only if it was touched and fewer
      than `max` distinct others were touched since. */
  lemma CachedExactly(events: seq<Event>, max: nat, id: SessionId)
    requires NoDrops(events)
    ensures id in CacheAfter(events, max) <==> Live(events, id) && |TouchedSince(events, id)| < max
  {
    var cache := CacheAfter(events, max);
    LruOverRuns(events, max);
    if id in cache {
      NewestAreCached(events, max);
      forall y | y in TouchedSince(events, id)
        ensures y in Without(cache, id)
      {
        SinceIsCached(events, cache, id, y);
      }
      DistinctCard(Without(cache, id));
      Card(TouchedSince(events, id), set x <- Without(cache, id));
    }
  }

  lemma SinceIsCached(events: seq<Event>, cache: seq<SessionId>, id: SessionId, y: SessionId)
    requires NoDrops(events) && CachedAreNewest(events, cache) && id in cache && y in TouchedSince(events, id)
    ensures y in cache && y != id
  {
    var k :| LastEvent(events, id) < k < |events| && events[k].Touched? && events[k].id == y;
    LastIsLatest(events, k);
    assert events[LastEvent(events, y)] in events;
  }

  lemma {:induction false} LastIsLatest(events: seq<Event>, k: nat)
    requires k < |events|
    ensures LastEvent(events, events[k].id) >= k
  {
    if k < |events| - 1 {
      LastIsLatest(events[..|events| - 1], k);
    }
  }
}
