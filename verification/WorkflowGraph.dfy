/**
 What a workflow plan means, independently of how the executor runs it: waves, the least
 fixpoint of "all dependencies already run", dependency chains, and deadlock.
 */
module WorkflowGraph {
  import opened Dicts

  type TaskId = string

  /** The part of a subtask the executor never changes. */
  datatype TaskSpec = TaskSpec(id: TaskId, title: string, description: string, dependsOn: seq<TaskId>)

  ghost predicate UniqueIds(tasks: seq<TaskSpec>) {
    forall i, j :: 0 <= i < j < |tasks| ==> tasks[i].id != tasks[j].id
  }

  ghost function Ids(tasks: seq<TaskSpec>): set<TaskId> {
    set t <- tasks :: t.id
  }

  predicate DepsIn(t: TaskSpec, done: set<TaskId>) {
    forall d <- t.dependsOn :: d in done
  }

  /** The tasks that become ready once exactly `done` has run. */
  ghost function Wave(tasks: seq<TaskSpec>, done: set<TaskId>): set<TaskId> {
    set t <- tasks | t.id !in done && DepsIn(t, done) :: t.id
  }

  /** What has run after n waves. */
  ghost function After(tasks: seq<TaskSpec>, n: nat): (done: set<TaskId>)
    ensures done <= Ids(tasks)
  {
    if n == 0 then {} else After(tasks, n - 1) + Wave(tasks, After(tasks, n - 1))
  }

  ghost function Ran(tasks: seq<TaskSpec>): set<TaskId> {
    After(tasks, |tasks|)
  }

  // ----- the least fixpoint

  ghost predicate Closed(tasks: seq<TaskSpec>, s: set<TaskId>) {
    forall t <- tasks :: DepsIn(t, s) ==> t.id in s
  }

  lemma IdsSnoc(tasks: seq<TaskSpec>, t: TaskSpec)
    ensures Ids(tasks + [t]) == Ids(tasks) + {t.id}
    ensures UniqueIds(tasks + [t]) <==> UniqueIds(tasks) && t.id !in Ids(tasks)
  {
    var all := tasks + [t];
    assert forall i :: 0 <= i < |tasks| ==> all[i] == tasks[i];
    if t.id in Ids(tasks) {
      var u :| u in tasks && u.id == t.id;
      var i :| 0 <= i < |tasks| && tasks[i] == u;
      assert all[i].id == all[|tasks|].id;
    } else {
      assert forall i :: 0 <= i < |tasks| ==> tasks[i].id in Ids(tasks);
    }
  }

  lemma {:induction false} IdsBound(tasks: seq<TaskSpec>)
    ensures |Ids(tasks)| <= |tasks|
    ensures |Ids(tasks)| == |tasks| <==> UniqueIds(tasks)
  {
    if tasks != [] {
      var front, last := tasks[..|tasks| - 1], tasks[|tasks| - 1];
      assert tasks == front + [last];
      IdsBound(front);
      IdsSnoc(front, last);
    }
  }

  lemma {:induction false} AfterGrows(tasks: seq<TaskSpec>, m: nat, n: nat)
    requires m <= n
    ensures After(tasks, m) <= After(tasks, n)
    decreases n
  {
    if m < n {
      AfterGrows(tasks, m, n - 1);
      OneWaveMore(tasks, n - 1);
      Between(After(tasks, m), After(tasks, n - 1), After(tasks, n));
    }
  }

  lemma Between<T>(a: set<T>, b: set<T>, c: set<T>)
    ensures a <= b && b <= c ==> a <= c
  {
  }

  lemma OneWaveMore(tasks: seq<TaskSpec>, n: nat)
    ensures After(tasks, n) <= After(tasks, n + 1)
  {
  }

  lemma WaveAdds(done: set<TaskId>, wave: set<TaskId>)
    requires done !! wave
    ensures if wave == {} then done + wave == done else |done + wave| > |done|
  {
    if wave != {} {
      var id :| id in wave;
      Card(done + {id}, done + wave);
    }
  }

  ghost predicate GrownOrStopped(tasks: seq<TaskSpec>, done: set<TaskId>, n: nat) {
    |done| >= n || Wave(tasks, done) == {}
  }

  lemma NextGrowsOrStops(tasks: seq<TaskSpec>, done: set<TaskId>, n: nat)
    requires GrownOrStopped(tasks, done, n)
    ensures GrownOrStopped(tasks, done + Wave(tasks, done), n + 1)
  {
    WaveAdds(done, Wave(tasks, done));
  }

  /** Each wave runs something new until nothing is ready, so the waves stop. */
  lemma {:induction false} AfterGrowsOrStops(tasks: seq<TaskSpec>, n: nat)
    ensures GrownOrStopped(tasks, After(tasks, n), n)
  {
    if n > 0 {
      AfterGrowsOrStops(tasks, n - 1);
      NextGrowsOrStops(tasks, After(tasks, n - 1), n - 1);
    }
  }

  lemma StopsAt(tasks: seq<TaskSpec>, n: nat)
    requires Wave(tasks, After(tasks, n)) == {}
    ensures After(tasks, n) == Ran(tasks)
  {
    StableFrom(tasks, n, if n < |tasks| then |tasks| else n);
    if |tasks| < n {
      RanStops(tasks);
      StableFrom(tasks, |tasks|, n);
    }
  }

  lemma {:induction false} StableFrom(tasks: seq<TaskSpec>, m: nat, n: nat)
    requires m <= n && Wave(tasks, After(tasks, m)) == {}
    ensures After(tasks, n) == After(tasks, m)
    decreases n
  {
    if m < n {
      StableFrom(tasks, m, n - 1);
    }
  }

  lemma RanStops(tasks: seq<TaskSpec>)
    ensures Wave(tasks, Ran(tasks)) == {}
  {
    AfterGrowsOrStops(tasks, |tasks|);
    var ran, wave := Ran(tasks), Wave(tasks, Ran(tasks));
    if wave != {} {
      var id :| id in wave;
      assert id !in ran && |ran + {id}| == |ran| + 1;
      Card(ran + {id}, Ids(tasks));
      IdsBound(tasks);
    }
  }

  lemma {:induction false} AfterIsLeast(tasks: seq<TaskSpec>, n: nat, s: set<TaskId>)
    requires Closed(tasks, s)
    ensures After(tasks, n) <= s
  {
    if n > 0 {
      AfterIsLeast(tasks, n - 1, s);
    }
  }

  lemma RanIsLeastFixpoint(tasks: seq<TaskSpec>)
    ensures Closed(tasks, Ran(tasks))
    ensures forall s :: Closed(tasks, s) ==> Ran(tasks) <= s
  {
    RanStops(tasks);
    assert forall t <- tasks ::
        t.id !in Ran(tasks) && DepsIn(t, Ran(tasks)) ==> t.id in Wave(tasks, Ran(tasks));
    forall s | Closed(tasks, s)
      ensures Ran(tasks) <= s
    {
      AfterIsLeast(tasks, |tasks|, s);
    }
  }

  // ----- dependency chains

  ghost predicate DependsOn(tasks: seq<TaskSpec>, a: TaskId, b: TaskId) {
    exists t :: t in tasks && t.id == a && b in t.dependsOn
  }

  ghost predicate Chain(tasks: seq<TaskSpec>, p: seq<TaskId>) {
    && p != []
    && forall i, j :: 0 <= i && i + 1 == j < |p| ==> DependsOn(tasks, p[i], p[j])
  }

  ghost predicate ChainFrom(tasks: seq<TaskSpec>, id: TaskId, p: seq<TaskId>) {
    Chain(tasks, p) && p[0] == id
  }

  /** The chain ends outside the plan, or comes back to where it has been. */
  ghost predicate EndsBadly(tasks: seq<TaskSpec>, p: seq<TaskId>)
    requires p != []
  {
    var last := p[|p| - 1];
    last !in Ids(tasks) || last in p[..|p| - 1]
  }

  ghost predicate LeadsToCycleOrUnknown(tasks: seq<TaskSpec>, id: TaskId) {
    exists p :: ChainFrom(tasks, id, p) && EndsBadly(tasks, p)
  }

  lemma ChainSlice(tasks: seq<TaskSpec>, p: seq<TaskId>, i: nat, j: nat)
    requires Chain(tasks, p) && i <= j < |p|
    ensures Chain(tasks, p[i..j + 1])
  {
    var q := p[i..j + 1];
    assert forall k :: 0 <= k < |q| ==> q[k] == p[i + k];
  }

  lemma ChainCons(tasks: seq<TaskSpec>, id: TaskId, p: seq<TaskId>)
    requires Chain(tasks, p) && DependsOn(tasks, id, p[0])
    ensures ChainFrom(tasks, id, [id] + p)
  {
    assert forall k :: 0 < k < |[id] + p| ==> ([id] + p)[k] == p[k - 1];
  }

  lemma TheTask(tasks: seq<TaskSpec>, id: TaskId) returns (t: TaskSpec)
    requires UniqueIds(tasks) && id in Ids(tasks)
    ensures t in tasks && t.id == id
    ensures forall u <- tasks :: u.id == id ==> u == t
  {
    t :| t in tasks && t.id == id;
  }

  /** What runs in wave n + 1 has all its dependencies in earlier waves. */
  lemma {:induction false} RanDeps(tasks: seq<TaskSpec>, n: nat, t: TaskSpec)
    requires UniqueIds(tasks) && t in tasks && t.id in After(tasks, n)
    ensures n > 0 && DepsIn(t, After(tasks, n - 1))
  {
    if n > 0 {
      if t.id in After(tasks, n - 1) {
        RanDeps(tasks, n - 1, t);
        AfterGrows(tasks, n - 2, n - 1);
      } else {
        var u :| u in tasks && u.id == t.id && DepsIn(u, After(tasks, n - 1));
        var w := TheTask(tasks, t.id);
      }
    }
  }

  /** Along a chain from a task that has run within n waves everything has run, earlier
      and earlier, so the chain has at most n tasks and no repetition. */
  lemma {:induction false} ChainOfRan(tasks: seq<TaskSpec>, n: nat, p: seq<TaskId>)
    requires UniqueIds(tasks) && Chain(tasks, p) && p[0] in After(tasks, n)
    ensures RanBackwards(tasks, n, p)
  {
    if n > 0 && |p| > 1 {
      NextInChain(tasks, n, p);
      ChainOfRan(tasks, n - 1, p[1..]);
      OneEarlier(tasks, n, p);
    }
  }

  ghost predicate RanBackwards(tasks: seq<TaskSpec>, n: nat, p: seq<TaskId>) {
    |p| <= n && forall i :: 0 <= i < |p| ==> p[i] in After(tasks, n - i)
  }

  lemma OneEarlier(tasks: seq<TaskSpec>, n: nat, p: seq<TaskId>)
    requires n > 0 && p != [] && p[0] in After(tasks, n)
    ensures RanBackwards(tasks, n - 1, p[1..]) ==> RanBackwards(tasks, n, p)
  {
    forall i | 0 < i < |p|
      ensures p[1..][i - 1] == p[i]
    {
    }
  }

  lemma NextInChain(tasks: seq<TaskSpec>, n: nat, p: seq<TaskId>)
    requires UniqueIds(tasks) && Chain(tasks, p) && p[0] in After(tasks, n) && n > 0 && |p| > 1
    ensures Chain(tasks, p[1..]) && p[1] in After(tasks, n - 1)
  {
    assert DependsOn(tasks, p[0], p[1]);
    var t := TheTask(tasks, p[0]);
    RanDeps(tasks, n, t);
    ChainSlice(tasks, p, 1, |p| - 1);
  }

  // ----- the wave of a task is its longest chain

  /** A task that first runs in wave n heads a chain of n tasks, and no longer one. */
  lemma WaveIsLongestChain(tasks: seq<TaskSpec>, n: nat, id: TaskId)
    requires UniqueIds(tasks) && n > 0
    requires id in After(tasks, n) && id !in After(tasks, n - 1)
    ensures exists p :: ChainFrom(tasks, id, p) && |p| == n
    ensures forall p :: ChainFrom(tasks, id, p) ==> |p| <= n
  {
    var p := LongChain(tasks, n, id);
    forall q | ChainFrom(tasks, id, q)
      ensures |q| <= n
    {
      ChainOfRan(tasks, n, q);
    }
  }

  lemma {:induction false} LongChain(tasks: seq<TaskSpec>, n: nat, id: TaskId) returns (p: seq<TaskId>)
    requires UniqueIds(tasks) && n > 0
    requires id in After(tasks, n) && id !in After(tasks, n - 1)
    ensures ChainFrom(tasks, id, p) && |p| == n
  {
    if n == 1 {
      p := [id];
    } else {
      var t := TheTask(tasks, id);
      RanDeps(tasks, n, t);
      var before := After(tasks, n - 2);
      assert DepsIn(t, before) ==> id in Wave(tasks, before) + before;
      var d :| d in t.dependsOn && d !in After(tasks, n - 2);
      var q := LongChain(tasks, n - 1, d);
      ChainCons(tasks, id, q);
      p := [id] + q;
    }
  }

  // ----- deadlock is exact

  lemma {:induction false} CycleNeverRuns(tasks: seq<TaskSpec>, cycle: seq<TaskId>, n: nat)
    requires UniqueIds(tasks) && Chain(tasks, cycle)
    requires |cycle| > 1 && cycle[0] == cycle[|cycle| - 1]
    ensures cycle[0] !in After(tasks, n)
  {
    if cycle[0] in After(tasks, n) {
      ChainOfRan(tasks, n, cycle);
      CycleNeverRuns(tasks, cycle, n - (|cycle| - 1));
    }
  }

  lemma RanHasNoBadChain(tasks: seq<TaskSpec>, p: seq<TaskId>)
    requires UniqueIds(tasks) && Chain(tasks, p) && p[0] in Ran(tasks)
    ensures !EndsBadly(tasks, p)
  {
    var k := |p| - 1;
    ChainOfRan(tasks, |tasks|, p);
    assert p[k] in After(tasks, |tasks| - k);
    if p[k] in p[..k] {
      var i :| 0 <= i < k && p[i] == p[k];
      RepeatNeverRuns(tasks, p, i, k, |tasks| - k);
    }
  }

  lemma RepeatNeverRuns(tasks: seq<TaskSpec>, p: seq<TaskId>, i: nat, k: nat, n: nat)
    requires UniqueIds(tasks) && Chain(tasks, p) && i < k < |p| && p[i] == p[k]
    ensures p[k] !in After(tasks, n)
  {
    ChainSlice(tasks, p, i, k);
    CycleNeverRuns(tasks, p[i..k + 1], n);
  }

  /** From a blocked task, either an unknown id is reached, or blocked tasks go on for as
      long as we like. */
  lemma {:induction false} BlockedChain(tasks: seq<TaskSpec>, id: TaskId, k: nat) returns (p: seq<TaskId>)
    requires id in Ids(tasks) && id !in Ran(tasks)
    ensures ChainFrom(tasks, id, p)
    ensures
      || p[|p| - 1] !in Ids(tasks)
      || (|p| == k + 1 && forall i :: 0 <= i < |p| ==> p[i] in Ids(tasks) - Ran(tasks))
    decreases k
  {
    p := [id];
    if k > 0 {
      RanIsLeastFixpoint(tasks);
      var t :| t in tasks && t.id == id;
      var d :| d in t.dependsOn && d !in Ran(tasks);
      assert DependsOn(tasks, id, d);
      var q := [d];
      if d in Ids(tasks) {
        q := BlockedChain(tasks, d, k - 1);
      }
      ChainCons(tasks, id, q);
      p := [id] + q;
    }
  }

  lemma {:induction false} Pigeonhole(p: seq<TaskId>, s: set<TaskId>) returns (i: nat, j: nat)
    requires |p| > |s| && forall k :: 0 <= k < |p| ==> p[k] in s
    ensures i < j < |p| && p[i] == p[j]
  {
    var k := |p| - 1;
    if p[k] in p[..k] {
      i :| 0 <= i < k && p[i] == p[k];
      j := k;
    } else {
      i, j := Pigeonhole(p[..k], s - {p[k]});
    }
  }

  /** The tasks the executor fails as a deadlock are exactly the tasks from which the
      dependencies lead to an unknown id or into a cycle. */
  lemma DeadlockIsExact(tasks: seq<TaskSpec>, id: TaskId)
    requires UniqueIds(tasks) && id in Ids(tasks)
    ensures id !in Ran(tasks) <==> LeadsToCycleOrUnknown(tasks, id)
  {
    if id in Ran(tasks) {
      forall p | ChainFrom(tasks, id, p)
        ensures !EndsBadly(tasks, p)
      {
        RanHasNoBadChain(tasks, p);
      }
    } else {
      var p := BlockedChain(tasks, id, |tasks|);
      if p[|p| - 1] in Ids(tasks) {
        IdsBound(tasks);
        var i, j := Pigeonhole(p, Ids(tasks));
        var q := p[..j + 1];
        assert q[j] == q[..j][i];
        assert ChainFrom(tasks, id, q) && EndsBadly(tasks, q);
      } else {
        assert EndsBadly(tasks, p);
      }
    }
  }

  /** When every dependency names a task of the plan, a deadlock means a real cycle of
      tasks that all fail. */
  lemma DeadlockNeedsCycle(tasks: seq<TaskSpec>) returns (cycle: seq<TaskId>)
    requires forall t <- tasks :: DepsIn(t, Ids(tasks))
    requires Ran(tasks) != Ids(tasks)
    ensures Chain(tasks, cycle) && |cycle| > 1 && cycle[0] == cycle[|cycle| - 1]
    ensures forall i :: 0 <= i < |cycle| ==> cycle[i] in Ids(tasks) - Ran(tasks)
  {
    var id :| id in Ids(tasks) && id !in Ran(tasks);
    var p := BlockedChain(tasks, id, |tasks|);
    IdsBound(tasks);
    KnownChain(tasks, p);
    var i, j := Pigeonhole(p, Ids(tasks));
    ChainSlice(tasks, p, i, j);
    cycle := p[i..j + 1];
  }

  lemma {:induction false} KnownChain(tasks: seq<TaskSpec>, p: seq<TaskId>)
    requires forall t <- tasks :: DepsIn(t, Ids(tasks))
    requires Chain(tasks, p) && p[0] in Ids(tasks)
    ensures p[|p| - 1] in Ids(tasks)
  {
    if |p| > 1 {
      assert DependsOn(tasks, p[|p| - 2], p[|p| - 1]);
    }
  }
}
