/** The order in which a run records its results: wave by wave, and as in the plan within a wave. */
module WorkflowOrder {
  import opened Dicts
  import opened WorkflowGraph

  /** The ids of the tasks that satisfy `p`, in the order of the plan. */
  ghost function Listed(tasks: seq<TaskSpec>, p: TaskSpec -> bool): seq<TaskId> {
    if tasks == [] then [] else (if p(tasks[0]) then [tasks[0].id] else []) + Listed(tasks[1..], p)
  }

  ghost function ReadyOnes(done: set<TaskId>): TaskSpec -> bool {
    (t: TaskSpec) => t.id !in done && DepsIn(t, done)
  }

  ghost function LeftOnes(done: set<TaskId>): TaskSpec -> bool {
    (t: TaskSpec) => t.id !in done
  }

  ghost function OrderAfter(tasks: seq<TaskSpec>, n: nat): seq<TaskId> {
    if n == 0 then [] else OrderAfter(tasks, n - 1) + Listed(tasks, ReadyOnes(After(tasks, n - 1)))
  }

  /** The waves, and then what they left over. */
  ghost function FinalOrder(tasks: seq<TaskSpec>, n: nat): seq<TaskId> {
    OrderAfter(tasks, n) + Listed(tasks, LeftOnes(After(tasks, n)))
  }

  // ----- what the order means

  ghost predicate StandsBefore(tasks: seq<TaskSpec>, x: TaskId, y: TaskId) {
    exists k, l :: 0 <= k < l < |tasks| && tasks[k].id == x && tasks[l].id == y
  }

  /** A wave runs `x` before another one runs `y`, or no wave ever runs `y`. */
  ghost predicate RunsBefore(tasks: seq<TaskSpec>, x: TaskId, y: TaskId) {
    exists n: nat :: x in After(tasks, n) && y !in After(tasks, n)
  }

  ghost predicate RunTogether(tasks: seq<TaskSpec>, x: TaskId, y: TaskId) {
    forall n: nat :: x in After(tasks, n) <==> y in After(tasks, n)
  }

  ghost predicate ComesFirst(tasks: seq<TaskSpec>, x: TaskId, y: TaskId) {
    RunsBefore(tasks, x, y) || (RunTogether(tasks, x, y) && StandsBefore(tasks, x, y))
  }

  ghost predicate InPlanOrder(tasks: seq<TaskSpec>, ids: seq<TaskId>) {
    forall i, j :: 0 <= i < j < |ids| ==> StandsBefore(tasks, ids[i], ids[j])
  }

  ghost predicate InRunOrder(tasks: seq<TaskSpec>, ids: seq<TaskId>) {
    forall i, j :: 0 <= i < j < |ids| ==> ComesFirst(tasks, ids[i], ids[j])
  }

  lemma BeforeInRest(tasks: seq<TaskSpec>, x: TaskId, y: TaskId)
    requires tasks != [] && StandsBefore(tasks[1..], x, y)
    ensures StandsBefore(tasks, x, y)
  {
    var k, l :| 0 <= k < l < |tasks| - 1 && tasks[1..][k].id == x && tasks[1..][l].id == y;
    assert tasks[k + 1].id == x && tasks[l + 1].id == y;
  }

  lemma HeadFirst(tasks: seq<TaskSpec>, y: TaskId)
    requires tasks != [] && y in Ids(tasks[1..])
    ensures StandsBefore(tasks, tasks[0].id, y)
  {
    var l :| 0 <= l < |tasks| - 1 && tasks[1..][l].id == y;
    assert tasks[l + 1].id == y;
  }

  ghost predicate Satisfied(tasks: seq<TaskSpec>, p: TaskSpec -> bool, id: TaskId) {
    exists t <- tasks :: p(t) && t.id == id
  }

  lemma {:induction false} ListedAre(tasks: seq<TaskSpec>, p: TaskSpec -> bool)
    ensures forall id :: id in Listed(tasks, p) <==> Satisfied(tasks, p, id)
    ensures InPlanOrder(tasks, Listed(tasks, p))
  {
    if tasks != [] {
      var rest := Listed(tasks[1..], p);
      ListedAre(tasks[1..], p);
      assert tasks == [tasks[0]] + tasks[1..];
      HeadAndRest(tasks, if p(tasks[0]) then [tasks[0].id] else [], rest);
    }
  }

  lemma HeadAndRest(tasks: seq<TaskSpec>, head: seq<TaskId>, rest: seq<TaskId>)
    requires tasks != [] && (head == [] || head == [tasks[0].id])
    requires InPlanOrder(tasks[1..], rest) && forall id <- rest :: id in Ids(tasks[1..])
    ensures InPlanOrder(tasks, head + rest)
  {
    var all, k := head + rest, |head|;
    forall i, j | 0 <= i < j < |all|
      ensures StandsBefore(tasks, all[i], all[j])
    {
      assert all[j] == rest[j - k];
      if i < k {
        HeadFirst(tasks, rest[j - k]);
      } else {
        BeforeInRest(tasks, rest[i - k], rest[j - k]);
      }
    }
  }

  ghost predicate AllIds(ids: seq<TaskId>, s: set<TaskId>) {
    forall id :: id in ids <==> id in s
  }

  lemma WaveIsListed(tasks: seq<TaskSpec>, done: set<TaskId>)
    ensures AllIds(Listed(tasks, ReadyOnes(done)), Wave(tasks, done))
    ensures AllIds(Listed(tasks, LeftOnes(done)), Ids(tasks) - done)
  {
    ListedAre(tasks, ReadyOnes(done));
    ListedAre(tasks, LeftOnes(done));
    forall id
      ensures Satisfied(tasks, ReadyOnes(done), id) <==> id in Wave(tasks, done)
      ensures Satisfied(tasks, LeftOnes(done), id) <==> id in Ids(tasks) - done
    {
      assert forall t <- tasks :: ReadyOnes(done)(t) <==> t.id !in done && DepsIn(t, done);
      assert forall t <- tasks :: LeftOnes(done)(t) <==> t.id !in done;
    }
  }

  /** Those before are run by an earlier wave than those behind. */
  lemma Behind(tasks: seq<TaskSpec>, n: nat, before: seq<TaskId>, behind: seq<TaskId>)
    requires InRunOrder(tasks, before) && InRunOrder(tasks, behind)
    requires AllIds(before, After(tasks, n)) && forall id <- behind :: id !in After(tasks, n)
    ensures InRunOrder(tasks, before + behind)
  {
    var all := before + behind;
    forall i, j | 0 <= i < j < |all|
      ensures ComesFirst(tasks, all[i], all[j])
    {
      if i < |before| <= j {
        assert before[i] in before && behind[j - |before|] in behind;
        assert RunsBefore(tasks, all[i], all[j]);
      }
    }
  }

  lemma OneWaveTogether(tasks: seq<TaskSpec>, n: nat, ids: seq<TaskId>)
    requires InPlanOrder(tasks, ids) && forall id <- ids :: id in After(tasks, n + 1) && id !in After(tasks, n)
    ensures InRunOrder(tasks, ids)
  {
    forall x, y | x in ids && y in ids
      ensures RunTogether(tasks, x, y)
    {
      forall m: nat
        ensures x in After(tasks, m) <==> y in After(tasks, m)
      {
        if m <= n {
          AfterGrows(tasks, m, n);
        } else {
          AfterGrows(tasks, n + 1, m);
        }
      }
    }
  }

  lemma WaveBehind(tasks: seq<TaskSpec>, n: nat, before: seq<TaskId>, wave: seq<TaskId>)
    requires AllIds(before, After(tasks, n)) && InRunOrder(tasks, before)
    requires AllIds(wave, Wave(tasks, After(tasks, n))) && InPlanOrder(tasks, wave)
    ensures AllIds(before + wave, After(tasks, n + 1)) && InRunOrder(tasks, before + wave)
  {
    OneWaveTogether(tasks, n, wave);
    Behind(tasks, n, before, wave);
  }

  lemma {:induction false} OrderIsRunOrder(tasks: seq<TaskSpec>, n: nat)
    ensures AllIds(OrderAfter(tasks, n), After(tasks, n)) && InRunOrder(tasks, OrderAfter(tasks, n))
  {
    if n > 0 {
      var done := After(tasks, n - 1);
      OrderIsRunOrder(tasks, n - 1);
      WaveIsListed(tasks, done);
      ListedAre(tasks, ReadyOnes(done));
      WaveBehind(tasks, n - 1, OrderAfter(tasks, n - 1), Listed(tasks, ReadyOnes(done)));
    }
  }

  lemma NeverTogether(tasks: seq<TaskSpec>, ids: seq<TaskId>)
    requires InPlanOrder(tasks, ids) && forall id <- ids :: id !in Ran(tasks)
    ensures InRunOrder(tasks, ids)
  {
    RanIsLeastFixpoint(tasks);
    forall id, m: nat | id in ids
      ensures id !in After(tasks, m)
    {
      AfterIsLeast(tasks, m, Ran(tasks));
    }
  }

  /** A finished run records every task of the plan: those of an earlier wave first, those that no wave
      runs last, and those of one wave as in the plan. */
  lemma FinalOrderMeaning(tasks: seq<TaskSpec>, n: nat)
    requires After(tasks, n) == Ran(tasks)
    ensures AllIds(FinalOrder(tasks, n), Ids(tasks)) && InRunOrder(tasks, FinalOrder(tasks, n))
  {
    var left := Listed(tasks, LeftOnes(After(tasks, n)));
    OrderIsRunOrder(tasks, n);
    WaveIsListed(tasks, After(tasks, n));
    ListedAre(tasks, LeftOnes(After(tasks, n)));
    NeverTogether(tasks, left);
    Behind(tasks, n, OrderAfter(tasks, n), left);
  }

  ghost predicate AllRun(tasks: seq<TaskSpec>, n: nat) {
    After(tasks, n) == Ran(tasks)
  }

  /** Wave n is the last one. */
  ghost predicate EndsWith(tasks: seq<TaskSpec>, n: nat) {
    AllRun(tasks, n) && (n > 0 ==> !AllRun(tasks, n - 1))
  }

  lemma AllRunSince(tasks: seq<TaskSpec>, m: nat, n: nat)
    requires m <= n && AllRun(tasks, m)
    ensures AllRun(tasks, n)
  {
    RanStops(tasks);
    StableFrom(tasks, m, n);
  }

  lemma FirstIsUnique(f: nat -> bool, m: nat, n: nat)
    requires forall i: nat, j: nat :: i <= j && f(i) ==> f(j)
    requires f(m) && f(n) && (m > 0 ==> !f(m - 1)) && (n > 0 ==> !f(n - 1))
    ensures m == n
  {
  }

  ghost function WhenAllRun(tasks: seq<TaskSpec>): nat -> bool {
    (n: nat) => AllRun(tasks, n)
  }

  /** The number of waves is a matter of the plan alone. */
  lemma WavesAreFixed(tasks: seq<TaskSpec>, m: nat, n: nat)
    requires EndsWith(tasks, m) && EndsWith(tasks, n)
    ensures m == n
  {
    var f := WhenAllRun(tasks);
    forall i: nat, j: nat | i <= j && f(i)
      ensures f(j)
    {
      AllRunSince(tasks, i, j);
    }
    FirstIsUnique(f, m, n);
  }

  // ----- the order is built up by putting keys

  lemma RunOrderIsDistinct(tasks: seq<TaskSpec>, ids: seq<TaskId>)
    requires UniqueIds(tasks) && InRunOrder(tasks, ids)
    ensures Distinct(ids)
  {
    forall i, j | 0 <= i < j < |ids|
      ensures ids[i] != ids[j]
    {
      assert ComesFirst(tasks, ids[i], ids[j]);
    }
  }

  lemma WaveIsPut(tasks: seq<TaskSpec>, n: nat)
    requires UniqueIds(tasks)
    ensures KeysPut(OrderAfter(tasks, n), Listed(tasks, ReadyOnes(After(tasks, n)))) == OrderAfter(tasks, n + 1)
  {
    OrderIsRunOrder(tasks, n + 1);
    RunOrderIsDistinct(tasks, OrderAfter(tasks, n + 1));
    KeysPutNew(OrderAfter(tasks, n), Listed(tasks, ReadyOnes(After(tasks, n))));
  }

  lemma LeftArePut(tasks: seq<TaskSpec>, n: nat)
    requires UniqueIds(tasks) && After(tasks, n) == Ran(tasks)
    ensures KeysPut(OrderAfter(tasks, n), Listed(tasks, LeftOnes(After(tasks, n)))) == FinalOrder(tasks, n)
  {
    FinalOrderMeaning(tasks, n);
    RunOrderIsDistinct(tasks, FinalOrder(tasks, n));
    KeysPutNew(OrderAfter(tasks, n), Listed(tasks, LeftOnes(After(tasks, n))));
  }

  lemma NothingLeft(tasks: seq<TaskSpec>, n: nat)
    requires After(tasks, n) == Ids(tasks)
    ensures FinalOrder(tasks, n) == OrderAfter(tasks, n)
  {
    WaveIsListed(tasks, After(tasks, n));
    NothingIn(Listed(tasks, LeftOnes(After(tasks, n))));
  }

  lemma NothingIn(ids: seq<TaskId>)
    ensures AllIds(ids, {}) ==> ids == []
  {
    if ids != [] {
      assert ids[0] in ids;
    }
  }
}
