/**
 The executor of workflow/executor.py over mutable subtasks, proved against the meaning
 of a plan in WorkflowGraph and WorkflowRun.
 */
module WorkflowExecutor {
  import opened Common
  import opened Dicts
  import opened Picking
  import opened WorkflowGraph
  import opened WorkflowWave
  import opened WorkflowRun
  import opened WorkflowOrder

  class SubTask {
    const spec: TaskSpec
    var status: TaskStatus

    constructor (spec: TaskSpec)
      ensures this.spec == spec && status == Pending
    {
      this.spec := spec;
      status := Pending;
    }
  }

  datatype PlanStatus = PlanPlanned | PlanRunning | PlanCompleted | PlanPartial | PlanFailed

  class WorkflowPlan {
    const goal: string
    const subtasks: seq<SubTask>
    var status: PlanStatus

    constructor (goal: string, subtasks: seq<SubTask>)
      ensures this.goal == goal && this.subtasks == subtasks && status == PlanPlanned
    {
      this.goal := goal;
      this.subtasks := subtasks;
      status := PlanPlanned;
    }
  }

  function Specs(subtasks: seq<SubTask>): (specs: seq<TaskSpec>)
    ensures |specs| == |subtasks|
    ensures forall i :: 0 <= i < |specs| ==> specs[i] == subtasks[i].spec
  {
    seq(|subtasks|, i requires 0 <= i < |subtasks| => subtasks[i].spec)
  }

  function CountStatus(rs: seq<SubTaskResult>, status: TaskStatus): nat {
    if rs == [] then 0 else (if rs[0].status == status then 1 else 0) + CountStatus(rs[1..], status)
  }

  datatype WorkflowResult = WorkflowResult(status: PlanStatus, subtaskResults: seq<SubTaskResult>,
                                           mergedOutput: string) {
    function SuccessCount(): nat {
      CountStatus(subtaskResults, Completed)
    }

    function FailureCount(): nat {
      CountStatus(subtaskResults, Failed)
    }
  }

  lemma {:induction false} CountsSplit(rs: seq<SubTaskResult>)
    requires forall r <- rs :: r.status.Completed? || r.status.Failed?
    ensures CountStatus(rs, Completed) + CountStatus(rs, Failed) == |rs|
    ensures CountStatus(rs, Completed) > 0 <==> exists r :: r in rs && r.status.Completed?
    ensures CountStatus(rs, Failed) == 0 <==> forall r <- rs :: r.status.Completed?
  {
    if rs != [] {
      CountsSplit(rs[1..]);
      assert rs == [rs[0]] + rs[1..];
    }
  }

  function MergeParts(rs: seq<SubTaskResult>): seq<(TaskId, string)> {
    if rs == [] then []
    else
      var r := rs[|rs| - 1];
      MergeParts(rs[..|rs| - 1]) + if r.output != "" then [(r.taskId, r.output)] else []
  }

  function MergedText(r: Response): string {
    match r
    case Answer(content) => content
    case Refusal(None) => "Merge error: " + "llm_failed"
    case Refusal(Some(e)) => "Merge error: " + e
    case NotADict(text) => text
    case Raised(m) => "Merge error: " + m
  }

  predicate IsReady(t: SubTask, done: set<TaskId>)
    reads t
  {
    t.spec.id !in done && t.status.Pending? && DepsIn(t.spec, done)
  }

  function ReadyTasks(subtasks: seq<SubTask>, done: set<TaskId>): (ready: seq<SubTask>)
    reads subtasks
    ensures forall t <- ready :: t in subtasks && IsReady(t, done)
    ensures forall t <- subtasks :: IsReady(t, done) ==> t in ready
  {
    if subtasks == [] then []
    else
      var rest := ReadyTasks(subtasks[1..], done);
      if IsReady(subtasks[0], done) then [subtasks[0]] + rest else rest
  }

  lemma {:induction false} ReadyStayUnique(subtasks: seq<SubTask>, done: set<TaskId>)
    requires UniqueIds(Specs(subtasks))
    ensures UniqueIds(Specs(ReadyTasks(subtasks, done)))
  {
    if subtasks != [] {
      var rest := ReadyTasks(subtasks[1..], done);
      assert forall i :: 0 <= i < |subtasks| - 1 ==> Specs(subtasks[1..])[i] == Specs(subtasks)[i + 1];
      ReadyStayUnique(subtasks[1..], done);
      forall t | t in rest
        ensures t.spec.id != subtasks[0].spec.id
      {
        var i :| 0 <= i < |subtasks| - 1 && subtasks[1..][i] == t;
        assert Specs(subtasks)[0].id != Specs(subtasks)[i + 1].id;
      }
    }
  }

  function PendingTasks(subtasks: seq<SubTask>): (pending: seq<SubTask>)
    reads subtasks
    ensures forall t <- pending :: t in subtasks && t.status.Pending?
    ensures forall t <- subtasks :: t.status.Pending? ==> t in pending
  {
    if subtasks == [] then []
    else (if subtasks[0].status.Pending? then [subtasks[0]] else []) + PendingTasks(subtasks[1..])
  }

  ghost function Statuses(subtasks: seq<SubTask>): (ss: seq<TaskStatus>)
    reads subtasks
    ensures |ss| == |subtasks| && forall i :: 0 <= i < |ss| ==> ss[i] == subtasks[i].status
  {
    if subtasks == [] then [] else [subtasks[0].status] + Statuses(subtasks[1..])
  }

  ghost function PendingPositions(ss: seq<TaskStatus>): set<nat> {
    set i: nat | i < |ss| && ss[i].Pending?
  }

  /** Every id that counts as done belongs to a task that is no longer pending. */
  ghost predicate DoneCovered(subtasks: seq<SubTask>, ss: seq<TaskStatus>, done: set<TaskId>)
    requires |ss| == |subtasks|
  {
    forall id <- done :: exists i :: 0 <= i < |ss| && subtasks[i].spec.id == id && !ss[i].Pending?
  }

  /** A task that counts as done has the status of its result, any other task is pending. */
  ghost predicate StatusesAgree(subtasks: seq<SubTask>, ss: seq<TaskStatus>, done: set<TaskId>,
                                results: map<TaskId, SubTaskResult>)
    requires |ss| == |subtasks|
  {
    forall i {:trigger ss[i]} :: 0 <= i < |ss| ==>
      var id := subtasks[i].spec.id;
      if id in done then id in results && ss[i] == results[id].status else ss[i].Pending?
  }

  ghost function TaskIds(subtasks: seq<SubTask>): seq<TaskId> {
    seq(|subtasks|, i requires 0 <= i < |subtasks| => subtasks[i].spec.id)
  }

  lemma EachIn(ready: seq<SubTask>, subtasks: seq<SubTask>)
    requires forall t <- ready :: t in subtasks
    ensures forall i :: 0 <= i < |ready| ==> ready[i] in subtasks
  {
  }

  lemma SameId(subtasks: seq<SubTask>, t: SubTask, u: SubTask)
    requires UniqueIds(Specs(subtasks)) && t in subtasks && u in subtasks && t.spec.id == u.spec.id
    ensures t == u
  {
    var i :| 0 <= i < |subtasks| && subtasks[i] == t;
    var j :| 0 <= j < |subtasks| && subtasks[j] == u;
    assert Specs(subtasks)[i].id == Specs(subtasks)[j].id;
  }

  /** What a turn of the loop can change. */
  datatype Turn = Turn(done: set<TaskId>, calls: nat, results: map<TaskId, SubTaskResult>, statuses: seq<TaskStatus>)

  /** `ready` lists the tasks that are ready in the state `s`. */
  ghost predicate ReadyAt(subtasks: seq<SubTask>, s: Turn, ready: seq<SubTask>)
    requires |s.statuses| == |subtasks|
  {
    && (forall t <- ready :: t in subtasks)
    && (UniqueIds(Specs(subtasks)) ==> UniqueIds(Specs(ready)))
    && forall i {:trigger s.statuses[i]} :: 0 <= i < |subtasks| ==>
        (subtasks[i] in ready <==>
           subtasks[i].spec.id !in s.done && s.statuses[i].Pending? && DepsIn(subtasks[i].spec, s.done))
  }

  /** A turn from `s` to `s'` that ran the tasks in `ready`: they all have a final status
      and a recorded result, and everything else is as before. */
  ghost predicate TurnDone(subtasks: seq<SubTask>, goal: string, client: Client, s: Turn, s': Turn,
                           ready: seq<SubTask>, rs: seq<SubTaskResult>, ks: seq<nat>) {
    && |s.statuses| == |s'.statuses| == |subtasks|
    && ReadyAt(subtasks, s, ready)
    && WaveDone(goal, client, s.results, Specs(ready), s.calls, s'.calls, rs, ks)
    && s'.results == PutAll(s.results, TaskIds(ready), rs)
    && s'.done == s.done + (set id <- TaskIds(ready))
    && (forall i {:trigger s.statuses[i]} {:trigger s'.statuses[i]} :: 0 <= i < |subtasks| ==>
          if subtasks[i] in ready then !s'.statuses[i].Pending? else s'.statuses[i] == s.statuses[i])
    && (UniqueIds(Specs(subtasks)) ==>
          forall i, k :: 0 <= i < |subtasks| && 0 <= k < |ready| && subtasks[i] == ready[k] ==>
                           s'.statuses[i] == rs[k].status)
  }

  /** The ready tasks have the status of their result, the others the one they had. */
  ghost predicate StatusesMoved(subtasks: seq<SubTask>, ready: seq<SubTask>, rs: seq<SubTaskResult>,
                                ss: seq<TaskStatus>, ss': seq<TaskStatus>)
    requires |ss| == |ss'| == |subtasks| && |rs| == |ready|
  {
    && (forall i {:trigger ss[i]} {:trigger ss'[i]} :: 0 <= i < |subtasks| ==>
          if subtasks[i] in ready then !ss'[i].Pending? else ss'[i] == ss[i])
    && (Distinct(ready) ==>
          forall i, k :: 0 <= i < |subtasks| && 0 <= k < |ready| && subtasks[i] == ready[k] ==> ss'[i] == rs[k].status)
  }

  lemma TurnIsDone(subtasks: seq<SubTask>, goal: string, client: Client, s: Turn, s': Turn,
                   ready: seq<SubTask>, rs: seq<SubTaskResult>, ks: seq<nat>)
    requires |s.statuses| == |s'.statuses| == |subtasks| && ReadyAt(subtasks, s, ready)
    requires UniqueIds(Specs(subtasks)) ==> Distinct(ready)
    requires WaveDone(goal, client, s.results, Specs(ready), s.calls, s'.calls, rs, ks)
    requires s'.results == PutAll(s.results, TaskIds(ready), rs)
    requires forall id :: id in s'.done <==> id in s.done || id in TaskIds(ready)
    requires StatusesMoved(subtasks, ready, rs, s.statuses, s'.statuses)
    ensures TurnDone(subtasks, goal, client, s, s', ready, rs, ks)
  {
    assert s'.done == s.done + (set id <- TaskIds(ready));
  }

  /** The state of a fresh run after n waves. */
  ghost predicate Gap(subtasks: seq<SubTask>, goal: string, client: Client, n: nat, asked: map<TaskId, nat>, s: Turn) {
    var tasks := Specs(subtasks);
    && UniqueIds(tasks) && s.done == After(tasks, n)
    && BetweenWaves(tasks, goal, client, s.done, s.calls, asked, s.results)
    && |s.statuses| == |subtasks|
    && StatusesAgree(subtasks, s.statuses, s.done, s.results)
  }

  lemma ReadyNow(subtasks: seq<SubTask>, s: Turn)
    requires s.statuses == Statuses(subtasks)
    ensures ReadyAt(subtasks, s, ReadyTasks(subtasks, s.done))
    ensures UniqueIds(Specs(subtasks)) ==> Distinct(ReadyTasks(subtasks, s.done))
  {
    var ready := ReadyTasks(subtasks, s.done);
    if UniqueIds(Specs(subtasks)) {
      ReadyStayUnique(subtasks, s.done);
      assert forall k :: 0 <= k < |ready| ==> Specs(ready)[k].id == ready[k].spec.id;
    }
    forall i | 0 <= i < |subtasks|
      ensures subtasks[i] in ready <==>
              subtasks[i].spec.id !in s.done && s.statuses[i].Pending? && DepsIn(subtasks[i].spec, s.done)
    {
      assert subtasks[i] in subtasks;
      assert IsReady(subtasks[i], s.done) <==> subtasks[i] in ready;
    }
  }

  lemma ReadyIsWave(subtasks: seq<SubTask>, s: Turn, ready: seq<SubTask>)
    requires |s.statuses| == |subtasks| && UniqueIds(Specs(subtasks))
    requires StatusesAgree(subtasks, s.statuses, s.done, s.results) && ReadyAt(subtasks, s, ready)
    ensures ReadyList(Specs(subtasks), s.done, Specs(ready), TaskIds(ready))
    ensures forall id :: id in TaskIds(ready) <==> id in Wave(Specs(subtasks), s.done)
  {
    var tasks, ids := Specs(subtasks), TaskIds(ready);
    assert forall k :: 0 <= k < |ready| ==> Specs(ready)[k].id == ids[k];
    forall k | 0 <= k < |ready|
      ensures ready[k].spec in tasks && ids[k] !in s.done && DepsIn(ready[k].spec, s.done)
    {
      assert ready[k] in ready;
      var i :| 0 <= i < |subtasks| && subtasks[i] == ready[k];
      assert tasks[i] == ready[k].spec && s.statuses[i].Pending?;
    }
    forall id | id in Wave(tasks, s.done)
      ensures id in ids
    {
      var t :| t in tasks && t.id == id && DepsIn(t, s.done) && t.id !in s.done;
      var i :| 0 <= i < |tasks| && tasks[i] == t;
      assert s.statuses[i].Pending?;
      var k :| 0 <= k < |ready| && ready[k] == subtasks[i];
      assert ids[k] == id;
    }
  }

  /** A turn makes progress, for every plan. */
  lemma PendingShrinks(subtasks: seq<SubTask>, goal: string, client: Client, s: Turn, s': Turn,
                       ready: seq<SubTask>, rs: seq<SubTaskResult>, ks: seq<nat>)
    ensures TurnDone(subtasks, goal, client, s, s', ready, rs, ks) && ready != [] ==>
              PendingPositions(s'.statuses) < PendingPositions(s.statuses)
  {
    if TurnDone(subtasks, goal, client, s, s', ready, rs, ks) && ready != [] {
      assert ready[0] in ready;
      var i: nat :| i < |subtasks| && subtasks[i] == ready[0];
      assert s.statuses[i].Pending?;
      assert i in PendingPositions(s.statuses) && i !in PendingPositions(s'.statuses);
    }
  }

  lemma CoverGrows(subtasks: seq<SubTask>, goal: string, client: Client, s: Turn, s': Turn,
                   ready: seq<SubTask>, rs: seq<SubTaskResult>, ks: seq<nat>)
    ensures TurnDone(subtasks, goal, client, s, s', ready, rs, ks) && DoneCovered(subtasks, s.statuses, s.done) ==>
              DoneCovered(subtasks, s'.statuses, s'.done)
  {
    if TurnDone(subtasks, goal, client, s, s', ready, rs, ks) && DoneCovered(subtasks, s.statuses, s.done) {
      forall id | id in s'.done
        ensures exists i :: 0 <= i < |subtasks| && subtasks[i].spec.id == id && !s'.statuses[i].Pending?
      {
        if id in s.done {
          var i :| 0 <= i < |subtasks| && subtasks[i].spec.id == id && !s.statuses[i].Pending?;
          assert !s'.statuses[i].Pending?;
        } else {
          var k :| 0 <= k < |ready| && TaskIds(ready)[k] == id;
          assert ready[k] in ready;
          var i :| 0 <= i < |subtasks| && subtasks[i] == ready[k];
          assert !s'.statuses[i].Pending?;
        }
      }
    }
  }

  /** If as many ids are done as there are tasks, no task is pending. */
  lemma AllCovered(subtasks: seq<SubTask>, ss: seq<TaskStatus>, done: set<TaskId>)
    requires |ss| == |subtasks| && DoneCovered(subtasks, ss, done) && |done| >= |subtasks|
    ensures forall i :: 0 <= i < |ss| ==> !ss[i].Pending?
    ensures done == Ids(Specs(subtasks))
  {
    var tasks := Specs(subtasks);
    forall id | id in done
      ensures id in Ids(tasks)
    {
      var i :| 0 <= i < |ss| && subtasks[i].spec.id == id && !ss[i].Pending?;
      assert tasks[i] in tasks;
    }
    IdsBound(tasks);
    SubsetOfSize(done, Ids(tasks));
    forall i | 0 <= i < |ss|
      ensures !ss[i].Pending?
    {
      assert tasks[i] in tasks && tasks[i].id in done;
      var j :| 0 <= j < |ss| && subtasks[j].spec.id == tasks[i].id && !ss[j].Pending?;
      assert tasks[j].id == tasks[i].id;
    }
  }

  lemma SubsetOfSize<T>(a: set<T>, b: set<T>)
    requires a <= b && |a| >= |b|
    ensures a == b
  {
    Card(b - a, b);
    assert |b| == |b - a| + |a| by {
      assert b == (b - a) + a;
    }
  }

  lemma StatusesFollow(subtasks: seq<SubTask>, goal: string, client: Client, s: Turn, s': Turn,
                       ready: seq<SubTask>, rs: seq<SubTaskResult>, ks: seq<nat>)
    requires TurnDone(subtasks, goal, client, s, s', ready, rs, ks)
    requires UniqueIds(Specs(subtasks)) && StatusesAgree(subtasks, s.statuses, s.done, s.results)
    requires Grown(s.results, TaskIds(ready), rs, s'.results)
    ensures StatusesAgree(subtasks, s'.statuses, s'.done, s'.results)
  {
    var ids := TaskIds(ready);
    forall i | 0 <= i < |subtasks|
      ensures var id := subtasks[i].spec.id;
              if id in s'.done then id in s'.results && s'.statuses[i] == s'.results[id].status
              else s'.statuses[i].Pending?
    {
      var t := subtasks[i];
      if t in ready {
        var k :| 0 <= k < |ready| && ready[k] == t;
        assert ids[k] == t.spec.id;
      } else {
        assert t.spec.id !in ids by {
          if t.spec.id in ids {
            var k :| 0 <= k < |ids| && ids[k] == t.spec.id;
            assert ready[k] in ready;
            SameId(subtasks, t, ready[k]);
          }
        }
        assert s'.statuses[i] == s.statuses[i];
      }
    }
  }

  lemma NextRun(subtasks: seq<SubTask>, goal: string, client: Client, n: nat, asked: map<TaskId, nat>,
                s: Turn, s': Turn, ready: seq<SubTask>, rs: seq<SubTaskResult>, ks: seq<nat>)
    requires Gap(subtasks, goal, client, n, asked, s) && TurnDone(subtasks, goal, client, s, s', ready, rs, ks)
    ensures s'.done == After(Specs(subtasks), n + 1)
    ensures BetweenWaves(Specs(subtasks), goal, client, s'.done, s'.calls, PutAll(asked, TaskIds(ready), ks),
                         s'.results)
  {
    ReadyIsWave(subtasks, s, ready);
    NextGap(Specs(subtasks), goal, client, n, s.calls, asked, s.results, Specs(ready), TaskIds(ready), rs, ks,
            s'.calls);
  }

  lemma NextStatuses(subtasks: seq<SubTask>, goal: string, client: Client, n: nat, asked: map<TaskId, nat>,
                     s: Turn, s': Turn, ready: seq<SubTask>, rs: seq<SubTaskResult>, ks: seq<nat>)
    requires Gap(subtasks, goal, client, n, asked, s) && TurnDone(subtasks, goal, client, s, s', ready, rs, ks)
    ensures StatusesAgree(subtasks, s'.statuses, s'.done, s'.results)
  {
    ReadyIsWave(subtasks, s, ready);
    PutAllNew(s.results, TaskIds(ready), rs);
    StatusesFollow(subtasks, goal, client, s, s', ready, rs, ks);
  }

  /** In a fresh run, a turn leads from one gap between waves to the next. */
  lemma NextTurn(subtasks: seq<SubTask>, goal: string, client: Client, n: nat, asked: map<TaskId, nat>,
                 s: Turn, s': Turn, ready: seq<SubTask>, rs: seq<SubTaskResult>, ks: seq<nat>)
    ensures Gap(subtasks, goal, client, n, asked, s) && TurnDone(subtasks, goal, client, s, s', ready, rs, ks) ==>
              Gap(subtasks, goal, client, n + 1, PutAll(asked, TaskIds(ready), ks), s')
  {
    if Gap(subtasks, goal, client, n, asked, s) && TurnDone(subtasks, goal, client, s, s', ready, rs, ks) {
      NextRun(subtasks, goal, client, n, asked, s, s', ready, rs, ks);
      NextStatuses(subtasks, goal, client, n, asked, s, s', ready, rs, ks);
    }
  }

  /** The invariant of the loop: the first line for every plan, the rest for fresh runs. */
  ghost predicate LoopInv(subtasks: seq<SubTask>, goal: string, client: Client, clean: bool, n: nat,
                          asked: map<TaskId, nat>, s: Turn) {
    && |s.statuses| == |subtasks| && DoneCovered(subtasks, s.statuses, s.done)
    && (clean ==>
          && Gap(subtasks, goal, client, n, asked, s)
          && (n > 0 ==> After(Specs(subtasks), n - 1) != s.done))
  }

  lemma LoopStep(subtasks: seq<SubTask>, goal: string, client: Client, clean: bool, n: nat, asked: map<TaskId, nat>,
                 s: Turn, s': Turn, ready: seq<SubTask>, rs: seq<SubTaskResult>, ks: seq<nat>)
    requires ready != []
    ensures LoopInv(subtasks, goal, client, clean, n, asked, s)
            && TurnDone(subtasks, goal, client, s, s', ready, rs, ks) ==>
              && LoopInv(subtasks, goal, client, clean, n + 1, PutAll(asked, TaskIds(ready), ks), s')
              && PendingPositions(s'.statuses) < PendingPositions(s.statuses)
  {
    PendingShrinks(subtasks, goal, client, s, s', ready, rs, ks);
    CoverGrows(subtasks, goal, client, s, s', ready, rs, ks);
    NextTurn(subtasks, goal, client, n, asked, s, s', ready, rs, ks);
    if LoopInv(subtasks, goal, client, clean, n, asked, s)
       && TurnDone(subtasks, goal, client, s, s', ready, rs, ks) && clean {
      ReadyIsWave(subtasks, s, ready);
      assert TaskIds(ready)[0] in Wave(Specs(subtasks), s.done);
    }
  }

  /** What a fresh run leaves behind. */
  ghost predicate RunDone(subtasks: seq<SubTask>, goal: string, client: Client, asked: map<TaskId, nat>, waves: nat,
                          results: map<TaskId, SubTaskResult>, ss: seq<TaskStatus>)
    requires |ss| == |subtasks|
  {
    var tasks := Specs(subtasks);
    && UniqueIds(tasks)
    && Solved(tasks, goal, client, asked, results)
    && WaveOrder(tasks, asked)
    && After(tasks, waves) == Ran(tasks)
    && (waves > 0 ==> After(tasks, waves - 1) != Ran(tasks))
    && forall i :: 0 <= i < |ss| ==> subtasks[i].spec.id in results && ss[i] == results[subtasks[i].spec.id].status
  }

  /** Pending tasks become failed ones, with a deadlock for a result. */
  ghost predicate PendingFailed(subtasks: seq<SubTask>, s: Turn, results': map<TaskId, SubTaskResult>,
                                ss': seq<TaskStatus>)
    requires |s.statuses| == |ss'| == |subtasks|
  {
    && (forall i :: 0 <= i < |ss'| ==> ss'[i] == if s.statuses[i].Pending? then Failed else s.statuses[i])
    && (forall i :: 0 <= i < |ss'| && s.statuses[i].Pending? ==>
          subtasks[i].spec.id in results' && results'[subtasks[i].spec.id] == Deadlocked(subtasks[i].spec.id))
    && (forall id <- results' :: id in s.results || exists i :: 0 <= i < |ss'| && s.statuses[i].Pending?
                                                                && subtasks[i].spec.id == id)
    && (forall id <- s.results :: id in results' &&
          (results'[id] == s.results[id] || exists i :: 0 <= i < |ss'| && s.statuses[i].Pending?
                                                        && subtasks[i].spec.id == id))
  }

  ghost function Deadlocks(ids: seq<TaskId>): seq<SubTaskResult> {
    seq(|ids|, i requires 0 <= i < |ids| => Deadlocked(ids[i]))
  }

  ghost predicate PendingOnes(subtasks: seq<SubTask>, ss: seq<TaskStatus>, pending: seq<SubTask>)
    requires |ss| == |subtasks|
  {
    && (forall t <- pending :: t in subtasks)
    && forall i {:trigger ss[i]} :: 0 <= i < |subtasks| ==> (subtasks[i] in pending <==> ss[i].Pending?)
  }

  lemma PendingIds(subtasks: seq<SubTask>, ss: seq<TaskStatus>, pending: seq<SubTask>, id: TaskId)
    requires |ss| == |subtasks| && PendingOnes(subtasks, ss, pending)
    ensures id in TaskIds(pending) <==> exists i :: 0 <= i < |ss| && ss[i].Pending? && subtasks[i].spec.id == id
  {
    if id in TaskIds(pending) {
      var k :| 0 <= k < |pending| && TaskIds(pending)[k] == id;
      assert pending[k] in pending;
      var i :| 0 <= i < |subtasks| && subtasks[i] == pending[k];
      assert ss[i].Pending?;
    }
    if i :| 0 <= i < |ss| && ss[i].Pending? && subtasks[i].spec.id == id {
      var k :| 0 <= k < |pending| && pending[k] == subtasks[i];
      assert TaskIds(pending)[k] == id;
    }
  }

  lemma DeadlocksPut(results: map<TaskId, SubTaskResult>, ids: seq<TaskId>)
    ensures var results' := PutAll(results, ids, Deadlocks(ids));
            && results'.Keys == results.Keys + (set id <- ids)
            && (forall id <- results' :: results'[id] == if id in ids then Deadlocked(id) else results[id])
            && (AllFinal(results) ==> AllFinal(results'))
  {
    PutAllAt(results, ids, Deadlocks(ids));
    var results' := PutAll(results, ids, Deadlocks(ids));
    forall id <- results'
      ensures results'[id] == if id in ids then Deadlocked(id) else results[id]
    {
      if id in ids {
        DeadlockPut(results, ids, id);
      }
    }
  }

  lemma {:induction false} DeadlockPut(results: map<TaskId, SubTaskResult>, ids: seq<TaskId>, id: TaskId)
    requires id in ids
    ensures var results' := PutAll(results, ids, Deadlocks(ids));
            id in results' && results'[id] == Deadlocked(id)
  {
    var n := |ids| - 1;
    assert ids == ids[..n] + [ids[n]];
    assert Deadlocks(ids)[..n] == Deadlocks(ids[..n]);
    if ids[n] != id {
      DeadlockPut(results, ids[..n], id);
    }
  }

  lemma PendingHaveFailed(subtasks: seq<SubTask>, s: Turn, pending: seq<SubTask>,
                          results': map<TaskId, SubTaskResult>, ss': seq<TaskStatus>)
    requires |s.statuses| == |ss'| == |subtasks| && PendingOnes(subtasks, s.statuses, pending)
    requires results' == PutAll(s.results, TaskIds(pending), Deadlocks(TaskIds(pending)))
    requires forall i {:trigger ss'[i]} :: 0 <= i < |subtasks| ==>
                                             ss'[i] == if s.statuses[i].Pending? then Failed else s.statuses[i]
    ensures PendingFailed(subtasks, s, results', ss')
    ensures AllFinal(s.results) ==> AllFinal(results')
  {
    DeadlocksPut(s.results, TaskIds(pending));
    forall id: TaskId
      ensures id in TaskIds(pending) <==> exists i :: 0 <= i < |ss'| && s.statuses[i].Pending?
                                                      && subtasks[i].spec.id == id
    {
      PendingIds(subtasks, s.statuses, pending, id);
    }
  }

  lemma FailedExactly(subtasks: seq<SubTask>, s: Turn, results': map<TaskId, SubTaskResult>, ss': seq<TaskStatus>)
    requires |s.statuses| == |ss'| == |subtasks| && UniqueIds(Specs(subtasks))
    requires StatusesAgree(subtasks, s.statuses, s.done, s.results)
    requires s.results.Keys == s.done <= Ids(Specs(subtasks)) && AllFinal(s.results)
    requires PendingFailed(subtasks, s, results', ss')
    ensures results'.Keys == Ids(Specs(subtasks)) && AgreeOn(s.done, s.results, results')
    ensures forall id <- results' :: id !in s.done ==> results'[id] == Deadlocked(id)
    ensures forall i :: 0 <= i < |ss'| ==>
                          subtasks[i].spec.id in results' && ss'[i] == results'[subtasks[i].spec.id].status
  {
    var tasks := Specs(subtasks);
    forall id | id in Ids(tasks)
      ensures id in results' && results'[id] == if id in s.done then s.results[id] else Deadlocked(id)
    {
      var t :| t in tasks && t.id == id;
      var i :| 0 <= i < |tasks| && tasks[i] == t;
      FailedAt(subtasks, s, results', ss', i);
    }
    forall i | 0 <= i < |ss'|
      ensures subtasks[i].spec.id in results' && ss'[i] == results'[subtasks[i].spec.id].status
    {
      FailedAt(subtasks, s, results', ss', i);
    }
  }

  /** The same for one task. */
  lemma FailedAt(subtasks: seq<SubTask>, s: Turn, results': map<TaskId, SubTaskResult>, ss': seq<TaskStatus>, i: nat)
    requires i < |s.statuses| == |ss'| == |subtasks| && UniqueIds(Specs(subtasks))
    ensures StatusesAgree(subtasks, s.statuses, s.done, s.results) && s.results.Keys == s.done
            && AllFinal(s.results) && PendingFailed(subtasks, s, results', ss') ==>
              var id := subtasks[i].spec.id;
              && id in results' && results'[id] == (if id in s.done then s.results[id] else Deadlocked(id))
              && ss'[i] == results'[id].status
  {
    var tasks, id := Specs(subtasks), subtasks[i].spec.id;
    forall j | 0 <= j < |subtasks| && subtasks[j].spec.id == id
      ensures j == i
    {
      assert tasks[j].id == tasks[i].id;
    }
    if StatusesAgree(subtasks, s.statuses, s.done, s.results) && PendingFailed(subtasks, s, results', ss') {
      assert ss'[i] == if s.statuses[i].Pending? then Failed else s.statuses[i];
    }
  }

  /** A fresh run is over when nothing is ready: what has not run fails as a deadlock. */
  lemma FreshRunEnds(subtasks: seq<SubTask>, goal: string, client: Client, n: nat, asked: map<TaskId, nat>,
                     s: Turn, results': map<TaskId, SubTaskResult>, ss': seq<TaskStatus>)
    requires LoopInv(subtasks, goal, client, true, n, asked, s) && Wave(Specs(subtasks), s.done) == {}
    requires AllFinal(s.results)
    requires |ss'| == |subtasks| && PendingFailed(subtasks, s, results', ss')
    ensures RunDone(subtasks, goal, client, asked, n, results', ss')
  {
    StopsAt(Specs(subtasks), n);
    FailedExactly(subtasks, s, results', ss');
    LastGap(Specs(subtasks), goal, client, s.done, asked, s.results, results');
  }

  lemma OneMoreId(ids: seq<TaskId>, i: nat)
    requires i < |ids|
    ensures forall id :: id in ids[..i + 1] <==> id in ids[..i] || id == ids[i]
  {
    assert ids[..i + 1] == ids[..i] + [ids[i]];
  }

  // ----- the order of results

  lemma {:induction false} ReadyAreListed(subtasks: seq<SubTask>, done: set<TaskId>)
    requires forall t <- subtasks :: t.spec.id !in done ==> t.status.Pending?
    ensures TaskIds(ReadyTasks(subtasks, done)) == Listed(Specs(subtasks), ReadyOnes(done))
  {
    if subtasks != [] {
      ReadyAreListed(subtasks[1..], done);
      assert Specs(subtasks)[1..] == Specs(subtasks[1..]);
      assert IsReady(subtasks[0], done) <==> ReadyOnes(done)(subtasks[0].spec);
    }
  }

  lemma {:induction false} PendingAreListed(subtasks: seq<SubTask>, done: set<TaskId>)
    requires forall t <- subtasks :: t.status.Pending? <==> t.spec.id !in done
    ensures TaskIds(PendingTasks(subtasks)) == Listed(Specs(subtasks), LeftOnes(done))
  {
    if subtasks != [] {
      PendingAreListed(subtasks[1..], done);
      assert Specs(subtasks)[1..] == Specs(subtasks[1..]);
      assert subtasks[0].status.Pending? <==> LeftOnes(done)(subtasks[0].spec);
    }
  }

  lemma PendingIsNotDone(subtasks: seq<SubTask>, s: Turn)
    requires s.statuses == Statuses(subtasks) && AllFinal(s.results)
    requires StatusesAgree(subtasks, s.statuses, s.done, s.results)
    ensures forall t <- subtasks :: t.status.Pending? <==> t.spec.id !in s.done
  {
    forall t | t in subtasks
      ensures t.status.Pending? <==> t.spec.id !in s.done
    {
      var i :| 0 <= i < |subtasks| && subtasks[i] == t;
      assert s.statuses[i] == t.status;
    }
  }

  /** The keys that a turn of a fresh run adds are those of the next wave, in the order of the plan. */
  lemma ReadyKeys(subtasks: seq<SubTask>, goal: string, client: Client, n: nat, asked: map<TaskId, nat>, s: Turn)
    requires Gap(subtasks, goal, client, n, asked, s) && s.statuses == Statuses(subtasks) && AllFinal(s.results)
    ensures KeysPut(OrderAfter(Specs(subtasks), n), TaskIds(ReadyTasks(subtasks, s.done)))
            == OrderAfter(Specs(subtasks), n + 1)
  {
    PendingIsNotDone(subtasks, s);
    ReadyAreListed(subtasks, s.done);
    WaveIsPut(Specs(subtasks), n);
  }

  lemma PendingKeys(subtasks: seq<SubTask>, goal: string, client: Client, n: nat, asked: map<TaskId, nat>, s: Turn)
    requires Gap(subtasks, goal, client, n, asked, s) && s.statuses == Statuses(subtasks) && AllFinal(s.results)
    requires Wave(Specs(subtasks), s.done) == {}
    ensures KeysPut(OrderAfter(Specs(subtasks), n), TaskIds(PendingTasks(subtasks))) == FinalOrder(Specs(subtasks), n)
  {
    PendingIsNotDone(subtasks, s);
    PendingAreListed(subtasks, s.done);
    StopsAt(Specs(subtasks), n);
    LeftArePut(Specs(subtasks), n);
  }

  class WorkflowExecutor {
    const client: Client
    var calls: nat
    var results: Dict<TaskId, SubTaskResult>

    /** Every recorded result is final. */
    ghost predicate Valid()
      reads this
    {
      results.Wf() && AllFinal(results.at)
    }

    constructor (client: Client)
      ensures Valid() && this.client == client && results == Empty() && calls == 0
    {
      this.client := client;
      calls := 0;
      results := Empty();
    }

    /** All coroutines of a wave, interleaved in any way the scheduler likes. */
    method RunWave(goal: string, tasks: seq<TaskSpec>, maxParallel: nat)
      returns (rs: seq<SubTaskResult>, ghost ks: seq<nat>)
      requires maxParallel > 0
      modifies this`calls
      ensures calls == old(calls) + |tasks|
      ensures WaveDone(goal, client, results.at, tasks, old(calls), calls, rs, ks)
    {
      var job := Job(goal, tasks, results.at, client);
      var ws := Start(job, maxParallel, calls);
      StartInv(job, maxParallel, calls);
      while !AllFinished(ws)
        invariant WaveInv(job, maxParallel, old(calls), ws)
        invariant InsideCount(ws.cos) <= maxParallel
        decreases Work(ws.cos)
      {
        ghost var _ := NeverStuck(job, maxParallel, old(calls), ws);
        var i: nat :| i < |ws.cos| && CanStep(ws, i);
        StepKeepsInv(job, maxParallel, old(calls), ws, i);
        ws := Step(job, ws, i);
      }
      assert forall j :: 0 <= j < |ws.cos| ==> ws.cos[j] in ws.cos;
      GatherIsDone(job, maxParallel, old(calls), ws);
      rs := ResultsOf(ws.cos);
      ks := CallsOf(ws.cos);
      calls := ws.calls;
    }

    /** `for t in ready: t.status = "running"` */
    method MarkRunning(ready: seq<SubTask>)
      modifies ready
      ensures forall t <- ready :: t.status == Running
    {
      for i := 0 to |ready|
        invariant forall j :: 0 <= j < i ==> ready[j].status == Running
      {
        ready[i].status := Running;
      }
    }

    /** Take over the i-th of the results `rs` under the i-th of `ids`. */
    method Take(t: SubTask, r: SubTaskResult, ghost start: Dict<TaskId, SubTaskResult>, ghost ids: seq<TaskId>,
                ghost rs: seq<SubTaskResult>, ghost i: nat)
      requires i < |ids| && i < |rs| && ids[i] == t.spec.id && rs[i] == r
      requires results == PutFirst(start, ids, rs, i)
      modifies this`results, t`status
      ensures results == PutFirst(start, ids, rs, i + 1)
      ensures t.status == r.status
    {
      t.status := r.status;
      results := results.Put(t.spec.id, r);
    }

    /** Statuses and results of a wave are taken over one task after the other. */
    method Record(ready: seq<SubTask>, rs: seq<SubTaskResult>, done: set<TaskId>) returns (done': set<TaskId>)
      requires |rs| == |ready|
      requires forall r <- rs :: !r.status.Pending?
      modifies this`results, ready
      ensures results == PutFirst(old(results), TaskIds(ready), rs, |ready|)
      ensures forall id :: id in done' <==> id in done || id in TaskIds(ready)
      ensures forall t <- ready :: !t.status.Pending?
      ensures Distinct(ready) ==> forall i :: 0 <= i < |ready| ==> ready[i].status == rs[i].status
    {
      done' := done;
      ghost var ids := TaskIds(ready);
      for i := 0 to |ready|
        invariant results == PutFirst(old(results), ids, rs, i)
        invariant forall id :: id in done' <==> id in done || id in ids[..i]
        invariant forall k :: 0 <= k < i ==> !ready[k].status.Pending?
        invariant Distinct(ready) ==> forall k :: 0 <= k < i ==> ready[k].status == rs[k].status
      {
        Take(ready[i], rs[i], old(results), ids, rs, i);
        done' := done' + {ready[i].spec.id};
        OneMoreId(ids, i);
      }
      assert ids[..|ready|] == ids;
    }

    /** Nothing is ready: what is still pending fails as a deadlock. */
    method FailPending(pending: seq<SubTask>)
      modifies this`results, pending
      ensures results == PutFirst(old(results), TaskIds(pending), Deadlocks(TaskIds(pending)), |pending|)
      ensures forall t <- pending :: t.status == Failed
    {
      ghost var ids := TaskIds(pending);
      ghost var failed := Deadlocks(ids);
      for i := 0 to |pending|
        invariant results == PutFirst(old(results), ids, failed, i)
        invariant forall k :: 0 <= k < i ==> pending[k].status == Failed
      {
        Take(pending[i], Deadlocked(pending[i].spec.id), old(results), ids, failed, i);
      }
    }

    /** A plan that has not been touched, on an executor that has not been used. */
    ghost predicate Untouched(plan: WorkflowPlan)
      reads this, plan.subtasks
    {
      && UniqueIds(Specs(plan.subtasks)) && results == Empty()
      && forall t <- plan.subtasks :: t.status.Pending?
    }

    ghost function StateOf(plan: WorkflowPlan, done: set<TaskId>): Turn
      reads this, plan.subtasks
    {
      Turn(done, calls, results.at, Statuses(plan.subtasks))
    }

    /** The part of a turn that does something: mark the ready tasks, gather, record. */
    method RunReady(goal: string, maxParallel: nat, ready: seq<SubTask>, done: set<TaskId>)
      returns (done': set<TaskId>, ghost rs: seq<SubTaskResult>, ghost ks: seq<nat>)
      requires maxParallel > 0 && Valid()
      modifies this, ready
      ensures Valid()
      ensures WaveDone(goal, client, old(results.at), Specs(ready), old(calls), calls, rs, ks)
      ensures results.at == PutAll(old(results.at), TaskIds(ready), rs)
      ensures results.keys == KeysPut(old(results.keys), TaskIds(ready))
      ensures forall id :: id in done' <==> id in done || id in TaskIds(ready)
      ensures forall t <- ready :: !t.status.Pending?
      ensures Distinct(ready) ==> forall i :: 0 <= i < |ready| ==> ready[i].status == rs[i].status
    {
      MarkRunning(ready);
      var gathered;
      gathered, ks := RunWave(goal, Specs(ready), maxParallel);
      rs := gathered;
      WaveIsFinal(goal, client, results.at, Specs(ready), old(calls), calls, rs, ks, TaskIds(ready));
      ghost var before := results;
      done' := Record(ready, gathered, done);
      PutEachMeaning(before, TaskIds(ready), rs);
    }

    /** What the turn does to the statuses of the whole plan. */
    method GatherReady(plan: WorkflowPlan, maxParallel: nat, ready: seq<SubTask>, done: set<TaskId>)
      returns (done': set<TaskId>, ghost rs: seq<SubTaskResult>, ghost ks: seq<nat>)
      requires maxParallel > 0 && Valid() && forall t <- ready :: t in plan.subtasks
      modifies this, plan.subtasks
      ensures Valid() && plan.status == old(plan.status)
      ensures WaveDone(plan.goal, client, old(results.at), Specs(ready), old(calls), calls, rs, ks)
      ensures results.at == PutAll(old(results.at), TaskIds(ready), rs)
      ensures results.keys == KeysPut(old(results.keys), TaskIds(ready))
      ensures forall id :: id in done' <==> id in done || id in TaskIds(ready)
      ensures StatusesMoved(plan.subtasks, ready, rs, old(Statuses(plan.subtasks)), Statuses(plan.subtasks))
    {
      EachIn(ready, plan.subtasks);
      done', rs, ks := RunReady(plan.goal, maxParallel, ready, done);
    }

    /** One turn of the loop. */
    method OneWave(plan: WorkflowPlan, maxParallel: nat, ready: seq<SubTask>, done: set<TaskId>)
      returns (done': set<TaskId>, ghost rs: seq<SubTaskResult>, ghost ks: seq<nat>)
      requires maxParallel > 0 && Valid() && ready == ReadyTasks(plan.subtasks, done)
      modifies this, plan.subtasks
      ensures Valid() && plan.status == old(plan.status)
      ensures TurnDone(plan.subtasks, plan.goal, client, old(StateOf(plan, done)), StateOf(plan, done'), ready, rs, ks)
      ensures results.keys == KeysPut(old(results.keys), TaskIds(ready))
    {
      ghost var s := StateOf(plan, done);
      ReadyNow(plan.subtasks, s);
      done', rs, ks := GatherReady(plan, maxParallel, ready, done);
      TurnIsDone(plan.subtasks, plan.goal, client, s, StateOf(plan, done'), ready, rs, ks);
    }

    lemma NothingReady(plan: WorkflowPlan, done: set<TaskId>)
      requires ReadyTasks(plan.subtasks, done) == [] && UniqueIds(Specs(plan.subtasks))
      requires StatusesAgree(plan.subtasks, Statuses(plan.subtasks), done, results.at)
      ensures Wave(Specs(plan.subtasks), done) == {}
    {
      var s := StateOf(plan, done);
      ReadyNow(plan.subtasks, s);
      ReadyIsWave(plan.subtasks, s, []);
    }

    /** Every pending task of the plan fails. */
    method FailAll(plan: WorkflowPlan, done: set<TaskId>)
      requires Valid()
      modifies this`results, plan.subtasks
      ensures Valid()
      ensures forall t <- plan.subtasks :: !t.status.Pending?
      ensures PendingFailed(plan.subtasks, old(StateOf(plan, done)), results.at, Statuses(plan.subtasks))
      ensures results.keys == KeysPut(old(results.keys), old(TaskIds(PendingTasks(plan.subtasks))))
    {
      ghost var s := StateOf(plan, done);
      var pending := PendingTasks(plan.subtasks);
      EachIn(pending, plan.subtasks);
      assert PendingOnes(plan.subtasks, s.statuses, pending);
      PutEachMeaning(results, TaskIds(pending), Deadlocks(TaskIds(pending)));
      FailPending(pending);
      PendingHaveFailed(plan.subtasks, s, pending, results.at, Statuses(plan.subtasks));
    }

    /** If the keys were those of the waves, in their order, they are now those of the whole run. */
    ghost predicate KeysInOrder(subtasks: seq<SubTask>, waves: nat, before: seq<TaskId>, after: seq<TaskId>) {
      before == OrderAfter(Specs(subtasks), waves) ==> after == FinalOrder(Specs(subtasks), waves)
    }

    /** The branch that ends the loop early. */
    method Deadlock(plan: WorkflowPlan, done: set<TaskId>, ghost clean: bool, ghost waves: nat,
                    ghost asked: map<TaskId, nat>)
      requires Valid() && ReadyTasks(plan.subtasks, done) == []
      requires LoopInv(plan.subtasks, plan.goal, client, clean, waves, asked, StateOf(plan, done))
      modifies this`results, plan.subtasks
      ensures Valid()
      ensures forall t <- plan.subtasks :: !t.status.Pending?
      ensures clean ==> RunDone(plan.subtasks, plan.goal, client, asked, waves, results.at, Statuses(plan.subtasks))
      ensures clean ==> KeysInOrder(plan.subtasks, waves, old(results.keys), results.keys)
    {
      ghost var s := StateOf(plan, done);
      if clean {
        NothingReady(plan, done);
        PendingKeys(plan.subtasks, plan.goal, client, waves, asked, s);
      }
      FailAll(plan, done);
      if clean {
        FreshRunEnds(plan.subtasks, plan.goal, client, waves, asked, s, results.at, Statuses(plan.subtasks));
      }
    }

    lemma AllDone(plan: WorkflowPlan, clean: bool, waves: nat, asked: map<TaskId, nat>, done: set<TaskId>)
      requires Valid() && |done| >= |plan.subtasks|
      requires LoopInv(plan.subtasks, plan.goal, client, clean, waves, asked, StateOf(plan, done))
      ensures forall t <- plan.subtasks :: !t.status.Pending?
      ensures clean ==> RunDone(plan.subtasks, plan.goal, client, asked, waves, results.at, Statuses(plan.subtasks))
      ensures clean ==> FinalOrder(Specs(plan.subtasks), waves) == OrderAfter(Specs(plan.subtasks), waves)
    {
      var s := StateOf(plan, done);
      AllCovered(plan.subtasks, s.statuses, done);
      assert forall i :: 0 <= i < |plan.subtasks| ==> !plan.subtasks[i].status.Pending?;
      if clean {
        assert Wave(Specs(plan.subtasks), done) == {};
        FreshRunEnds(plan.subtasks, plan.goal, client, waves, asked, s, results.at, s.statuses);
        NothingLeft(Specs(plan.subtasks), waves);
      }
    }

    /** The loop of `execute`. */
    method RunWaves(plan: WorkflowPlan, maxParallel: nat) returns (ghost asked: map<TaskId, nat>, ghost waves: nat)
      requires maxParallel > 0 && Valid()
      modifies this, plan.subtasks
      ensures Valid()
      ensures forall t <- plan.subtasks :: !t.status.Pending?
      ensures old(Untouched(plan)) ==>
                RunDone(plan.subtasks, plan.goal, client, asked, waves, results.at, Statuses(plan.subtasks))
      ensures old(Untouched(plan)) ==> results.keys == FinalOrder(Specs(plan.subtasks), waves)
    {
      ghost var clean := Untouched(plan);
      var done := {};
      asked, waves := map[], 0;
      while |done| < |plan.subtasks|
        invariant Valid()
        invariant LoopInv(plan.subtasks, plan.goal, client, clean, waves, asked, StateOf(plan, done))
        invariant clean ==> results.keys == OrderAfter(Specs(plan.subtasks), waves)
        decreases PendingPositions(Statuses(plan.subtasks))
      {
        var ready := ReadyTasks(plan.subtasks, done);
        if ready == [] {
          Deadlock(plan, done, clean, waves, asked);
          return;
        }
        ghost var s := StateOf(plan, done);
        if clean {
          ReadyKeys(plan.subtasks, plan.goal, client, waves, asked, s);
        }
        ghost var rs, ks;
        done, rs, ks := OneWave(plan, maxParallel, ready, done);
        LoopStep(plan.subtasks, plan.goal, client, clean, waves, asked, s, StateOf(plan, done), ready, rs, ks);
        asked, waves := PutAll(asked, TaskIds(ready), ks), waves + 1;
      }
      AllDone(plan, clean, waves, asked, done);
    }

    /** The part of `execute` after the loop. */
    method Conclude(goal: string) returns (result: WorkflowResult)
      requires Valid()
      modifies this`calls
      ensures result.subtaskResults == results.Values() && result.status == StatusFor(result.subtaskResults)
      ensures result.SuccessCount() + result.FailureCount() == |result.subtaskResults|
      ensures result.status.PlanCompleted? ==>
                && calls == old(calls) + 1
                && result.mergedOutput == MergedText(client(old(calls),
                                                            MergePrompt(goal, MergeParts(result.subtaskResults))))
      ensures !result.status.PlanCompleted? ==> calls == old(calls) && result.mergedOutput == ""
    {
      var rs := results.Values();
      ValuesFinal(results);
      CountsSplit(rs);
      if CountStatus(rs, Failed) == 0 && rs != [] {
        result := WorkflowResult(PlanCompleted, rs, MergedText(client(calls, MergePrompt(goal, MergeParts(rs)))));
        calls := calls + 1;
      } else {
        result := WorkflowResult(if CountStatus(rs, Completed) > 0 then PlanPartial else PlanFailed, rs, "");
      }
    }

    /** `execute`: it ends for every plan, cyclic, dangling or with repeated ids. */
    method Execute(plan: WorkflowPlan, maxParallel: nat)
      returns (result: WorkflowResult, ghost asked: map<TaskId, nat>, ghost waves: nat)
      requires maxParallel > 0 && Valid()
      modifies this, plan, plan.subtasks
      ensures Valid() && plan.status == result.status
      ensures forall t <- plan.subtasks :: !t.status.Pending?
      ensures result.subtaskResults == results.Values() && result.status == StatusFor(result.subtaskResults)
      ensures result.SuccessCount() + result.FailureCount() == |result.subtaskResults|
      ensures result.status.PlanCompleted? ==>
                exists k :: result.mergedOutput
                            == MergedText(client(k, MergePrompt(plan.goal, MergeParts(result.subtaskResults))))
      ensures !result.status.PlanCompleted? ==> result.mergedOutput == ""
      ensures old(Untouched(plan)) ==>
                && RunDone(plan.subtasks, plan.goal, client, asked, waves, results.at, Statuses(plan.subtasks))
                && |result.subtaskResults| == |plan.subtasks|
      ensures old(Untouched(plan)) ==> results.keys == FinalOrder(Specs(plan.subtasks), waves)
      ensures old(Untouched(plan)) && AlwaysAnswers(client) ==> AnsweredStatus(plan.subtasks, result.status)
    {
      ghost var clean := Untouched(plan);
      plan.status := PlanRunning;
      asked, waves := RunWaves(plan, maxParallel);
      if clean {
        OnePerTask(plan.subtasks, results);
      }
      ghost var ss := Statuses(plan.subtasks);
      result := Conclude(plan.goal);
      plan.status := result.status;
      assert Statuses(plan.subtasks) == ss;
      if clean && AlwaysAnswers(client) {
        AnsweredPlanCompletes(plan.subtasks, plan.goal, client, asked, waves, results, ss);
      }
    }
  }

  /** A finished fresh run of a plan with these tasks, with its results listed as they were recorded. */
  ghost predicate Recorded(tasks: seq<TaskSpec>, goal: string, client: Client, asked: map<TaskId, nat>, waves: nat,
                           results: Dict<TaskId, SubTaskResult>) {
    && results.Wf() && results.keys == FinalOrder(tasks, waves) && EndsWith(tasks, waves)
    && Solved(tasks, goal, client, asked, results.at)
  }

  lemma RunIsRecorded(subtasks: seq<SubTask>, goal: string, client: Client, asked: map<TaskId, nat>, waves: nat,
                      results: Dict<TaskId, SubTaskResult>, ss: seq<TaskStatus>)
    requires |ss| == |subtasks| && results.Wf() && results.keys == FinalOrder(Specs(subtasks), waves)
    requires RunDone(subtasks, goal, client, asked, waves, results.at, ss)
    ensures Recorded(Specs(subtasks), goal, client, asked, waves, results)
  {
  }

  /** Two finished fresh runs of one plan, with a client that answers by the prompt alone, list the same
      results in the same order, and so ask for the same merge: whatever the interleavings and limits were. */
  lemma RunsAgreeInOrder(tasks: seq<TaskSpec>, goal: string, client: Client,
                         asked1: map<TaskId, nat>, waves1: nat, results1: Dict<TaskId, SubTaskResult>,
                         asked2: map<TaskId, nat>, waves2: nat, results2: Dict<TaskId, SubTaskResult>)
    requires Stateless(client)
    requires Recorded(tasks, goal, client, asked1, waves1, results1)
    requires Recorded(tasks, goal, client, asked2, waves2, results2)
    ensures results1.Wf() && results2.Wf() && results1.Values() == results2.Values()
    ensures MergePrompt(goal, MergeParts(results1.Values())) == MergePrompt(goal, MergeParts(results2.Values()))
  {
    RunsAgree(tasks, goal, client, asked1, results1.at, asked2, results2.at);
    WavesAreFixed(tasks, waves1, waves2);
    assert results1 == results2;
  }

  lemma OnePerTask(subtasks: seq<SubTask>, results: Dict<TaskId, SubTaskResult>)
    requires results.Wf() && UniqueIds(Specs(subtasks)) && results.at.Keys == Ids(Specs(subtasks))
    ensures |results.keys| == |subtasks|
  {
    IdsBound(Specs(subtasks));
    DistinctCard(results.keys);
    assert (set id <- results.keys) == results.at.Keys;
  }

  /** The part that is merged for a result, if any. */
  ghost function PartOf(): SubTaskResult -> Option<(TaskId, string)> {
    (r: SubTaskResult) => if r.output != "" then Some((r.taskId, r.output)) else None
  }

  /** What is merged are exactly the non-empty outputs with the ids of their tasks, in their order. */
  lemma {:induction false} MergeShowsOutputs(rs: seq<SubTaskResult>)
    ensures Picks(rs, PartOf(), MergeParts(rs))
  {
    if rs == [] {
      NothingPicked(rs, PartOf());
    } else {
      MergeShowsOutputs(rs[..|rs| - 1]);
      PickLast(rs, PartOf(), MergeParts(rs[..|rs| - 1]));
    }
  }

  /** The merged output is the text that came back, or says which error did. */
  lemma MergedOutputIs(r: Response)
    ensures r.Answer? ==> MergedText(r) == r.content
    ensures r.NotADict? ==> MergedText(r) == r.text
    ensures r.Raised? ==> MergedText(r) == "Merge error: " + r.message
    ensures r.Refusal? ==> MergedText(r) == "Merge error: " + if r.error.Some? then r.error.value else "llm_failed"
  {
  }

  ghost predicate AnsweredStatus(subtasks: seq<SubTask>, status: PlanStatus) {
    var tasks := Specs(subtasks);
    && (status == PlanCompleted <==> subtasks != [] && Ran(tasks) == Ids(tasks))
    && (status == PlanFailed <==> Ran(tasks) == {})
    && (status == PlanPartial <==> {} < Ran(tasks) < Ids(tasks))
  }

  /** With a client that always answers, a fresh run completes the plan if and only if the plan has
      a task and leaves nothing over; it fails if no task is ever ready. */
  lemma AnsweredPlanCompletes(subtasks: seq<SubTask>, goal: string, client: Client, asked: map<TaskId, nat>, waves: nat,
                              results: Dict<TaskId, SubTaskResult>, ss: seq<TaskStatus>)
    requires |ss| == |subtasks| && results.Wf() && AlwaysAnswers(client)
    requires RunDone(subtasks, goal, client, asked, waves, results.at, ss)
    ensures AnsweredStatus(subtasks, StatusFor(results.Values()))
  {
    var tasks, rs := Specs(subtasks), results.Values();
    forall i | 0 <= i < |rs|
      ensures results.keys[i] in Ids(tasks) && (rs[i].status == Completed <==> results.keys[i] in Ran(tasks))
    {
      assert results.keys[i] in results.at;
      AnsweredTasksComplete(tasks, goal, client, asked, results.at, results.keys[i]);
    }
    forall id | id in Ids(tasks)
      ensures id in results.keys
    {
      assert id in results.at;
    }
    OnePerTask(subtasks, results);
    StatusByIds(rs, results.keys, Ids(tasks), Ran(tasks));
  }

  lemma StatusByIds(rs: seq<SubTaskResult>, keys: seq<TaskId>, ids: set<TaskId>, ran: set<TaskId>)
    requires |rs| == |keys| && ran <= ids && forall id :: id in ids <==> id in keys
    requires forall i :: 0 <= i < |rs| ==> (rs[i].status == Completed <==> keys[i] in ran)
    ensures StatusFor(rs) == PlanCompleted <==> rs != [] && ran == ids
    ensures StatusFor(rs) == PlanFailed <==> ran == {}
  {
    if ran == ids {
      assert forall i :: 0 <= i < |keys| ==> keys[i] in keys;
    } else {
      var id :| id in ids && id !in ran;
      var i :| 0 <= i < |keys| && keys[i] == id;
      assert rs[i] in rs && !rs[i].status.Completed?;
    }
    if ran != {} {
      var id :| id in ran;
      assert id in ids;
      var i :| 0 <= i < |keys| && keys[i] == id;
      assert rs[i] in rs && rs[i].status == Completed;
    } else {
      forall r | r in rs
        ensures !r.status.Completed?
      {
        var i :| 0 <= i < |rs| && rs[i] == r;
      }
      assert rs != [] ==> rs[0] in rs;
    }
  }

  ghost function StatusFor(rs: seq<SubTaskResult>): PlanStatus {
    if rs != [] && forall r <- rs :: r.status.Completed? then PlanCompleted
    else if exists r :: r in rs && r.status.Completed? then PlanPartial
    else PlanFailed
  }

  lemma ValuesFinal(results: Dict<TaskId, SubTaskResult>)
    requires results.Wf() && AllFinal(results.at)
    ensures forall r <- results.Values() :: r.status.Completed? || r.status.Failed?
  {
    forall i | 0 <= i < |results.keys|
      ensures Final(results.Values()[i])
    {
      assert results.keys[i] in results.keys;
    }
  }
}
