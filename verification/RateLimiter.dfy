/**
 The sliding-window limiter of server/app.py. It remembers only recent calls; the proofs tie
 it to the full history of calls.
 */
module RateLimiter {
  import opened Picking

  datatype Call = Call(client: string, time: real, allowed: bool)

  /** `[t for t in bucket if t > cutoff]` */
  function Prune(times: seq<real>, cutoff: real): seq<real> {
    if times == [] then []
    else
      var t := times[|times| - 1];
      Prune(times[..|times| - 1], cutoff) + if t > cutoff then [t] else []
  }

  function AllowedTimes(history: seq<Call>, client: string): seq<real> {
    if history == [] then []
    else
      var c := history[|history| - 1];
      AllowedTimes(history[..|history| - 1], client) + if c.allowed && c.client == client then [c.time] else []
  }

  /** The allowed calls of a client after `cutoff`. */
  function Recent(history: seq<Call>, client: string, cutoff: real): seq<real> {
    Prune(AllowedTimes(history, client), cutoff)
  }

  ghost predicate Past(history: seq<Call>, now: real) {
    forall c <- history :: c.time <= now
  }

  /** A history the limiter can produce when the clock never goes back: a call is allowed
      exactly when fewer than the maximum were allowed in the window that ends with it. */
  ghost predicate IsRun(history: seq<Call>, maxRequests: int, window: real) {
    history != [] ==>
      var front, c := history[..|history| - 1], history[|history| - 1];
      && IsRun(front, maxRequests, window) && Past(front, c.time)
      && (c.allowed <==> |Recent(front, c.client, c.time - window)| < maxRequests)
  }

  lemma PruneSnoc(times: seq<real>, t: real, cutoff: real)
    ensures Prune(times + [t], cutoff) == Prune(times, cutoff) + if t > cutoff then [t] else []
  {
    assert (times + [t])[..|times|] == times;
  }

  lemma {:induction false} PruneTwice(times: seq<real>, early: real, late: real)
    requires early <= late
    ensures Prune(Prune(times, early), late) == Prune(times, late)
  {
    if times != [] {
      var front, t := times[..|times| - 1], times[|times| - 1];
      PruneTwice(front, early, late);
      if t > early {
        PruneSnoc(Prune(front, early), t, late);
      } else {
        assert Prune(times, early) == Prune(front, early);
      }
    }
  }

  lemma AllowedSnoc(history: seq<Call>, c: Call, client: string)
    ensures AllowedTimes(history + [c], client)
            == if c.allowed && c.client == client then AllowedTimes(history, client) + [c.time]
               else AllowedTimes(history, client)
  {
    assert (history + [c])[..|history|] == history;
    assert AllowedTimes(history, client) + [] == AllowedTimes(history, client);
  }

  /** What is kept of a bucket decides a call at time `now` as the full history would. */
  ghost predicate Kept(bucket: seq<real>, history: seq<Call>, client: string, window: real, now: real) {
    Prune(bucket, now - window) == Recent(history, client, now - window)
  }

  function Keep(bucket: seq<real>, window: real, now: real, ok: bool): seq<real> {
    var kept := Prune(bucket, now - window);
    if ok then kept + [now] else kept
  }

  /** After a call, what is kept decides every later call. */
  lemma StillKept(bucket: seq<real>, history: seq<Call>, client: string, window: real, now: real, ok: bool, later: real)
    requires now <= later && Kept(bucket, history, client, window, later)
    ensures Kept(Keep(bucket, window, now, ok), history + [Call(client, now, ok)], client, window, later)
  {
    var kept, cutoff := Prune(bucket, now - window), later - window;
    PruneTwice(bucket, now - window, cutoff);
    AllowedSnoc(history, Call(client, now, ok), client);
    if ok {
      PruneSnoc(kept, now, cutoff);
      PruneSnoc(AllowedTimes(history, client), now, cutoff);
    }
  }

  lemma RunSnoc(history: seq<Call>, maxRequests: int, window: real, c: Call)
    requires IsRun(history, maxRequests, window) && Past(history, c.time)
    requires c.allowed <==> |Recent(history, c.client, c.time - window)| < maxRequests
    ensures IsRun(history + [c], maxRequests, window)
  {
    assert (history + [c])[..|history|] == history;
  }

  type Hits = map<string, seq<real>>

  function Bucket(hits: Hits, client: string): seq<real> {
    if client in hits then hits[client] else []
  }

  /** Every bucket decides every possible next call as the full history would. */
  ghost predicate AllKept(hits: Hits, history: seq<Call>, window: real) {
    forall client, now :: Past(history, now) ==> Kept(Bucket(hits, client), history, client, window, now)
  }

  function AfterCall(hits: Hits, client: string, window: real, now: real, ok: bool): Hits {
    hits[client := Keep(Bucket(hits, client), window, now, ok)]
  }

  lemma AllStillKept(hits: Hits, history: seq<Call>, client: string, window: real, now: real, ok: bool)
    requires AllKept(hits, history, window)
    ensures AllKept(AfterCall(hits, client, window, now, ok), history + [Call(client, now, ok)], window)
  {
    var hits', history' := AfterCall(hits, client, window, now, ok), history + [Call(client, now, ok)];
    forall c, later | Past(history', later)
      ensures Kept(Bucket(hits', c), history', c, window, later)
    {
      PastSnoc(history, Call(client, now, ok), later);
      assert Kept(Bucket(hits, c), history, c, window, later);
      OneStillKept(hits, history, Call(client, now, ok), window, c, later);
    }
  }

  lemma PastSnoc(history: seq<Call>, c: Call, later: real)
    requires Past(history + [c], later)
    ensures Past(history, later) && c.time <= later
  {
    assert c in history + [c] && forall x <- history :: x in history + [c];
  }

  lemma OneStillKept(hits: Hits, history: seq<Call>, call: Call, window: real, c: string, later: real)
    requires call.time <= later && Kept(Bucket(hits, c), history, c, window, later)
    ensures Kept(Bucket(AfterCall(hits, call.client, window, call.time, call.allowed), c), history + [call], c,
                 window, later)
  {
    if c == call.client {
      StillKept(Bucket(hits, c), history, c, window, call.time, call.allowed, later);
    } else {
      AllowedSnoc(history, call, c);
    }
  }

  class RateLimiter {
    const maxRequests: int
    const window: real
    var hits: Hits
    ghost var history: seq<Call>

    ghost predicate Valid()
      reads this
    {
      IsRun(history, maxRequests, window) && AllKept(hits, history, window)
    }

    constructor (maxRequests: int, window: real)
      ensures Valid() && history == [] && hits == map[]
      ensures this.maxRequests == maxRequests && this.window == window
    {
      this.maxRequests := maxRequests;
      this.window := window;
      hits := map[];
      history := [];
    }

    /** `allow`, at time `now`. */
    method Allow(client: string, now: real) returns (ok: bool)
      requires Valid() && Past(history, now)
      modifies this
      ensures Valid() && history == old(history) + [Call(client, now, ok)]
      ensures ok <==> |Recent(old(history), client, now - window)| < maxRequests
      ensures hits == AfterCall(old(hits), client, window, now, ok)
    {
      var kept := Prune(Bucket(hits, client), now - window);
      assert Kept(Bucket(hits, client), history, client, window, now);
      hits := hits[client := kept];
      if |kept| >= maxRequests {
        ok := false;
      } else {
        hits := hits[client := kept + [now]];
        ok := true;
      }
      assert hits == AfterCall(old(hits), client, window, now, ok);
      AllStillKept(old(hits), history, client, window, now, ok);
      RunSnoc(history, maxRequests, window, Call(client, now, ok));
      history := history + [Call(client, now, ok)];
    }
  }

  // ----- safety over whole runs

  /** How many of the times lie in the interval from `lo` to `hi` that includes only its end. */
  function AfterCount(times: seq<real>, lo: real, hi: real): nat {
    if times == [] then 0
    else
      var t := times[|times| - 1];
      AfterCount(times[..|times| - 1], lo, hi) + if lo < t <= hi then 1 else 0
  }

  /** The same for the interval that includes only its start. */
  function FromCount(times: seq<real>, lo: real, hi: real): nat {
    if times == [] then 0
    else
      var t := times[|times| - 1];
      FromCount(times[..|times| - 1], lo, hi) + if lo <= t < hi then 1 else 0
  }

  lemma {:induction false} CountsBelowPrune(times: seq<real>, lo: real, hi: real, cutoff: real)
    ensures cutoff <= lo ==> AfterCount(times, lo, hi) <= |Prune(times, cutoff)|
    ensures cutoff < lo ==> FromCount(times, lo, hi) <= |Prune(times, cutoff)|
  {
    if times != [] {
      CountsBelowPrune(times[..|times| - 1], lo, hi, cutoff);
    }
  }

  /** In any half-open interval of the window's length, a client has at most the maximum
      number of allowed calls. */
  lemma {:induction false} WindowSafety(history: seq<Call>, maxRequests: int, window: real, client: string, start: real)
    requires IsRun(history, maxRequests, window) && maxRequests >= 0
    ensures AfterCount(AllowedTimes(history, client), start, start + window) <= maxRequests
    ensures FromCount(AllowedTimes(history, client), start, start + window) <= maxRequests
  {
    if history != [] {
      var front, c := history[..|history| - 1], history[|history| - 1];
      WindowSafety(front, maxRequests, window, client, start);
      if c.allowed && c.client == client {
        var times := AllowedTimes(front, client);
        CountsBelowPrune(times, start, start + window, c.time - window);
        assert AllowedTimes(history, client)[..|times|] == times;
      } else {
        assert AllowedTimes(history, client) == AllowedTimes(front, client);
      }
    }
  }

  lemma {:induction false} PruneCounts(history: seq<Call>, client: string, lo: real, hi: real)
    requires Past(history, hi)
    ensures |Recent(history, client, lo)| == AfterCount(AllowedTimes(history, client), lo, hi)
  {
    if history != [] {
      var front, c := history[..|history| - 1], history[|history| - 1];
      assert c in history;
      PruneCounts(front, client, lo, hi);
      var times := AllowedTimes(front, client);
      if c.allowed && c.client == client {
        assert AllowedTimes(history, client)[..|times|] == times;
        PruneSnoc(times, c.time, lo);
      } else {
        assert AllowedTimes(history, client) == times;
      }
    }
  }

  /** A call is refused only when exactly the maximum number of calls of that client were
      allowed in the window that ends with it. */
  lemma RefusedOnlyWhenFull(history: seq<Call>, maxRequests: int, window: real)
    requires IsRun(history, maxRequests, window) && maxRequests >= 0 && history != []
    requires !history[|history| - 1].allowed
    ensures var front, c := history[..|history| - 1], history[|history| - 1];
            AfterCount(AllowedTimes(front, c.client), c.time - window, c.time) == maxRequests
  {
    var front, c := history[..|history| - 1], history[|history| - 1];
    PruneCounts(front, c.client, c.time - window, c.time);
    WindowSafety(front, maxRequests, window, c.client, c.time - window);
  }

  // ----- the same in terms of the calls themselves

  /** Positions of allowed calls of this client, in order. */
  ghost predicate AllowedAt(history: seq<Call>, client: string, at: seq<int>) {
    Ascending(at) && forall k :: 0 <= k < |at| ==> AllowedCall(history, client, at[k])
  }

  ghost predicate AllowedCall(history: seq<Call>, client: string, i: int) {
    0 <= i < |history| && history[i].allowed && history[i].client == client
  }

  /** All in the interval that includes its end and not its start. */
  ghost predicate AllAfter(history: seq<Call>, at: seq<int>, lo: real, hi: real) {
    forall k :: 0 <= k < |at| && 0 <= at[k] < |history| ==> lo < history[at[k]].time <= hi
  }

  /** All in the interval that includes its start and not its end. */
  ghost predicate AllFrom(history: seq<Call>, at: seq<int>, lo: real, hi: real) {
    forall k :: 0 <= k < |at| && 0 <= at[k] < |history| ==> lo <= history[at[k]].time < hi
  }

  lemma CountsSnoc(history: seq<Call>, client: string, lo: real, hi: real)
    requires history != []
    ensures var front, c := AllowedTimes(history[..|history| - 1], client), history[|history| - 1];
            var counts := c.allowed && c.client == client;
            && AfterCount(AllowedTimes(history, client), lo, hi)
               == AfterCount(front, lo, hi) + (if counts && lo < c.time <= hi then 1 else 0)
            && FromCount(AllowedTimes(history, client), lo, hi)
               == FromCount(front, lo, hi) + (if counts && lo <= c.time < hi then 1 else 0)
  {
    var front, c := AllowedTimes(history[..|history| - 1], client), history[|history| - 1];
    if c.allowed && c.client == client {
      assert AllowedTimes(history, client)[..|front|] == front;
    } else {
      assert AllowedTimes(history, client) == front;
    }
  }

  /** The positions but for the last call. */
  function Before(at: seq<int>, last: int): seq<int> {
    if at != [] && at[|at| - 1] == last then at[..|at| - 1] else at
  }

  lemma AllowedBefore(history: seq<Call>, client: string, at: seq<int>)
    requires history != [] && AllowedAt(history, client, at)
    ensures AllowedAt(history[..|history| - 1], client, Before(at, |history| - 1))
  {
    var at' := Before(at, |history| - 1);
    forall k | 0 <= k < |at'|
      ensures AllowedCall(history[..|history| - 1], client, at'[k])
    {
      assert AllowedCall(history, client, at[k]) && AllowedCall(history, client, at[|at| - 1]);
      assert k < |at| - 1 ==> at[k] < at[|at| - 1];
    }
  }

  lemma {:induction false} CountsAreBounds(history: seq<Call>, client: string, lo: real, hi: real, at: seq<int>)
    requires AllowedAt(history, client, at)
    ensures AllAfter(history, at, lo, hi) ==> |at| <= AfterCount(AllowedTimes(history, client), lo, hi)
    ensures AllFrom(history, at, lo, hi) ==> |at| <= FromCount(AllowedTimes(history, client), lo, hi)
  {
    if history != [] {
      var front, at' := history[..|history| - 1], Before(at, |history| - 1);
      AllowedBefore(history, client, at);
      CountsAreBounds(front, client, lo, hi, at');
      CountsSnoc(history, client, lo, hi);
      assert AllAfter(history, at, lo, hi) ==> AllAfter(front, at', lo, hi);
      assert AllFrom(history, at, lo, hi) ==> AllFrom(front, at', lo, hi);
      assert |at'| < |at| ==> AllowedCall(history, client, at[|at| - 1]);
    }
  }

  /** No more than the maximum of a client's calls are allowed within the length of the window. */
  lemma NoBurst(history: seq<Call>, maxRequests: int, window: real, client: string, start: real, at: seq<int>)
    requires IsRun(history, maxRequests, window) && maxRequests >= 0 && AllowedAt(history, client, at)
    requires AllAfter(history, at, start, start + window) || AllFrom(history, at, start, start + window)
    ensures |at| <= maxRequests
  {
    CountsAreBounds(history, client, start, start + window, at);
    WindowSafety(history, maxRequests, window, client, start);
  }

  lemma AllowedStill(history: seq<Call>, client: string, lo: real, hi: real, at: seq<int>)
    requires history != [] && AllowedAt(history[..|history| - 1], client, at)
    requires AllAfter(history[..|history| - 1], at, lo, hi)
    ensures AllowedAt(history, client, at) && AllAfter(history, at, lo, hi)
    ensures forall k :: 0 <= k < |at| ==> at[k] < |history| - 1
    ensures AllowedCall(history, client, |history| - 1) && lo < history[|history| - 1].time <= hi ==>
              AllowedAt(history, client, at + [|history| - 1]) && AllAfter(history, at + [|history| - 1], lo, hi)
  {
    assert forall k :: 0 <= k < |at| ==> AllowedCall(history[..|history| - 1], client, at[k]);
  }

  lemma {:induction false} CountIsReached(history: seq<Call>, client: string, lo: real, hi: real) returns (at: seq<int>)
    ensures AllowedAt(history, client, at) && AllAfter(history, at, lo, hi)
    ensures |at| == AfterCount(AllowedTimes(history, client), lo, hi)
  {
    if history == [] {
      at := [];
    } else {
      var front, c := history[..|history| - 1], history[|history| - 1];
      at := CountIsReached(front, client, lo, hi);
      CountsSnoc(history, client, lo, hi);
      AllowedStill(history, client, lo, hi, at);
      if c.allowed && c.client == client && lo < c.time <= hi {
        at := at + [|history| - 1];
      }
    }
  }

  /** A refused call comes after as many allowed calls of its client, in the window that ends with it, as may be. */
  lemma RefusalHasCause(history: seq<Call>, maxRequests: int, window: real) returns (at: seq<int>)
    requires IsRun(history, maxRequests, window) && maxRequests >= 0 && history != []
    requires !history[|history| - 1].allowed
    ensures var front, c := history[..|history| - 1], history[|history| - 1];
            |at| == maxRequests && AllowedAt(front, c.client, at) && AllAfter(front, at, c.time - window, c.time)
  {
    var c := history[|history| - 1];
    RefusedOnlyWhenFull(history, maxRequests, window);
    at := CountIsReached(history[..|history| - 1], c.client, c.time - window, c.time);
  }
}
