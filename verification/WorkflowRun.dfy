/**
 What a whole run of the executor leaves behind, whatever the client answers and however
 the subtasks of a wave interleave.
 */
module WorkflowRun {
  import opened Dicts
  import opened Picking
  import opened WorkflowGraph
  import opened WorkflowWave

  function Deadlocked(id: TaskId): SubTaskResult {
    SubTaskResult(id, Failed, "", "deadlock")
  }

  /** Exactly one result per task: a task in the least fixpoint has the client's answer to
      the prompt made of its dependencies' final outputs, any other task is deadlocked.
      `asked` gives the number of the call that was placed for a task. */
  ghost predicate Solved(tasks: seq<TaskSpec>, goal: string, client: Client,
                         asked: map<TaskId, nat>, results: map<TaskId, SubTaskResult>) {
    && results.Keys == Ids(tasks)
    && asked.Keys == Ran(tasks)
    && forall t <- tasks ::
        results[t.id] == if t.id in Ran(tasks) then OutcomeOf(t, client(asked[t.id], PromptOf(goal, t, results)))
                         else Deadlocked(t.id)
  }

  /** One call per task that runs, and all calls of a wave after all calls of the waves
      before it. */
  ghost predicate WaveOrder(tasks: seq<TaskSpec>, asked: map<TaskId, nat>) {
    && (forall a, b {:trigger asked[a], asked[b]} :: a in asked && b in asked && a != b ==> asked[a] != asked[b])
    && forall n: nat :: EarlierFirst(After(tasks, n), asked)
  }

  ghost predicate EarlierFirst(early: set<TaskId>, asked: map<TaskId, nat>) {
    forall a, b {:trigger asked[a], asked[b]} :: a in asked && b in asked && a in early && b !in early ==>
                                                   asked[a] < asked[b]
  }

  /** What has run has the client's answers; `done` is closed under dependencies. */
  ghost predicate Answered(tasks: seq<TaskSpec>, goal: string, client: Client, done: set<TaskId>,
                           asked: map<TaskId, nat>, results: map<TaskId, SubTaskResult>) {
    && results.Keys == asked.Keys == done
    && forall t <- tasks :: t.id in done ==>
        DepsIn(t, done) && results[t.id] == OutcomeOf(t, client(asked[t.id], PromptOf(goal, t, results)))
  }

  ghost predicate AllBelow(asked: map<TaskId, nat>, calls: nat) {
    forall id {:trigger asked[id]} :: id in asked ==> asked[id] < calls
  }

  /** The state between two waves, when exactly `done` has run. */
  ghost predicate BetweenWaves(tasks: seq<TaskSpec>, goal: string, client: Client, done: set<TaskId>, calls: nat,
                               asked: map<TaskId, nat>, results: map<TaskId, SubTaskResult>) {
    && Answered(tasks, goal, client, done, asked, results)
    && AllBelow(asked, calls)
    && WaveOrder(tasks, asked)
  }

  ghost predicate AgreeOn(done: set<TaskId>, r1: map<TaskId, SubTaskResult>, r2: map<TaskId, SubTaskResult>) {
    forall id <- done :: id in r1 && id in r2 && r1[id] == r2[id]
  }

  /** The coroutines of the ready tasks have come back with `rs`, to the calls `ks`. */
  ghost predicate WaveDone(goal: string, client: Client, results: map<TaskId, SubTaskResult>, ready: seq<TaskSpec>,
                           calls: nat, calls': nat, rs: seq<SubTaskResult>, ks: seq<nat>) {
    && |rs| == |ks| == |ready| && Distinct(ks) && calls <= calls'
    && (forall i :: 0 <= i < |ks| ==> calls <= ks[i] < calls')
    && (forall i :: 0 <= i < |rs| ==> rs[i] == Job(goal, ready, results, client).Reply(i, ks[i]))
  }

  function ResultsOf(cos: seq<Coroutine>): (rs: seq<SubTaskResult>)
    requires forall i :: 0 <= i < |cos| ==> cos[i].Finished?
    ensures |rs| == |cos| && forall i :: 0 <= i < |cos| ==> rs[i] == cos[i].result
  {
    seq(|cos|, i requires 0 <= i < |cos| => cos[i].result)
  }

  ghost function CallsOf(cos: seq<Coroutine>): (ks: seq<nat>)
    requires forall i :: 0 <= i < |cos| ==> cos[i].Finished?
    ensures |ks| == |cos| && forall i :: 0 <= i < |cos| ==> ks[i] == cos[i].call
  {
    if cos == [] then [] else [cos[0].call] + CallsOf(cos[1..])
  }

  lemma GatherIsDone(job: Job, maxParallel: nat, calls0: nat, ws: WaveState)
    requires WaveInv(job, maxParallel, calls0, ws) && forall i :: 0 <= i < |ws.cos| ==> ws.cos[i].Finished?
    ensures ws.calls == calls0 + |job.tasks|
    ensures WaveDone(job.goal, job.client, job.results, job.tasks, calls0, ws.calls, ResultsOf(ws.cos), CallsOf(ws.cos))
  {
    AllStarted(ws.cos);
  }

  ghost predicate Final(r: SubTaskResult) {
    r.status.Completed? || r.status.Failed?
  }

  ghost predicate AllFinal(results: map<TaskId, SubTaskResult>) {
    forall id <- results :: Final(results[id])
  }

  lemma WaveIsFinal(goal: string, client: Client, results: map<TaskId, SubTaskResult>, ready: seq<TaskSpec>,
                    calls: nat, calls': nat, rs: seq<SubTaskResult>, ks: seq<nat>, ids: seq<TaskId>)
    requires WaveDone(goal, client, results, ready, calls, calls', rs, ks)
    requires AllFinal(results) && |ids| == |ready|
    ensures forall r <- rs :: Final(r)
    ensures AllFinal(PutAll(results, ids, rs))
  {
    var results' := PutAll(results, ids, rs);
    PutAllAt(results, ids, rs);
    assert forall id <- results' ::
        if id in ids then results'[id] in rs else id in results && results'[id] == results[id];
  }

  /** `ready` lists, under the names `ids`, tasks whose dependencies are all done. */
  ghost predicate ReadyList(tasks: seq<TaskSpec>, done: set<TaskId>, ready: seq<TaskSpec>, ids: seq<TaskId>) {
    && |ids| == |ready| && Distinct(ids)
    && forall i :: 0 <= i < |ready| ==>
        ready[i] in tasks && ready[i].id == ids[i] && ids[i] !in done && DepsIn(ready[i], done)
  }

  /** Running the ready tasks takes the state from one gap to the next. */
  lemma NextGap(tasks: seq<TaskSpec>, goal: string, client: Client, n: nat, calls: nat,
                asked: map<TaskId, nat>, results: map<TaskId, SubTaskResult>,
                ready: seq<TaskSpec>, ids: seq<TaskId>, rs: seq<SubTaskResult>, ks: seq<nat>, calls': nat)
    requires UniqueIds(tasks)
    requires BetweenWaves(tasks, goal, client, After(tasks, n), calls, asked, results)
    requires ReadyList(tasks, After(tasks, n), ready, ids)
    requires forall id :: id in ids <==> id in Wave(tasks, After(tasks, n))
    requires WaveDone(goal, client, results, ready, calls, calls', rs, ks)
    ensures BetweenWaves(tasks, goal, client, After(tasks, n + 1), calls', PutAll(asked, ids, ks),
                         PutAll(results, ids, rs))
  {
    var done := After(tasks, n);
    PutAllNew(asked, ids, ks);
    PutAllNew(results, ids, rs);
    NextAnswers(tasks, goal, client, done, calls, asked, results, ready, ids, rs, ks, calls');
    NextCalls(tasks, n, calls, asked, ids, ks, calls');
  }

  lemma NextCalls(tasks: seq<TaskSpec>, n: nat, calls: nat, asked: map<TaskId, nat>,
                  ids: seq<TaskId>, ks: seq<nat>, calls': nat)
    requires WaveOrder(tasks, asked) && asked.Keys == After(tasks, n)
    requires AllBelow(asked, calls)
    requires forall id :: id in ids <==> id in Wave(tasks, After(tasks, n))
    requires |ids| == |ks| && Distinct(ids) && Distinct(ks) && calls <= calls'
    requires forall i :: 0 <= i < |ks| ==> calls <= ks[i] < calls'
    ensures PutAll(asked, ids, ks).Keys == After(tasks, n + 1)
    ensures WaveOrder(tasks, PutAll(asked, ids, ks))
    ensures AllBelow(PutAll(asked, ids, ks), calls')
  {
    var asked' := PutAll(asked, ids, ks);
    PutAllNew(asked, ids, ks);
    NewCallsAreLater(calls, asked, ids, ks, asked');
    NewCallsBound(calls, asked, ids, ks, asked', calls');
    NextOrder(tasks, n, calls, asked, ids, ks, asked');
  }

  lemma NextAnswers(tasks: seq<TaskSpec>, goal: string, client: Client, done: set<TaskId>, calls: nat,
                    asked: map<TaskId, nat>, results: map<TaskId, SubTaskResult>,
                    ready: seq<TaskSpec>, ids: seq<TaskId>, rs: seq<SubTaskResult>, ks: seq<nat>, calls': nat)
    requires UniqueIds(tasks) && Answered(tasks, goal, client, done, asked, results)
    requires ReadyList(tasks, done, ready, ids)
    requires WaveDone(goal, client, results, ready, calls, calls', rs, ks)
    ensures Answered(tasks, goal, client, done + (set id <- ids), PutAll(asked, ids, ks), PutAll(results, ids, rs))
  {
    var asked', results' := PutAll(asked, ids, ks), PutAll(results, ids, rs);
    PutAllNew(asked, ids, ks);
    PutAllNew(results, ids, rs);
    forall t | t in tasks && t.id in asked'
      ensures DepsIn(t, done)
      ensures results'[t.id] == OutcomeOf(t, client(asked'[t.id], PromptOf(goal, t, results')))
    {
      if t.id !in done {
        var i :| 0 <= i < |ids| && ids[i] == t.id;
        assert ready[i] == t by {
          var w := TheTask(tasks, t.id);
        }
        assert rs[i] == Job(goal, ready, results, client).Reply(i, ks[i]);
      }
      PromptReadsDepsOnly(goal, t, results, results');
    }
  }

  /** The dictionary of calls grows by calls numbered from `calls` on. */
  ghost predicate Extends(calls: nat, asked: map<TaskId, nat>, ids: seq<TaskId>, ks: seq<nat>,
                          asked': map<TaskId, nat>) {
    && Grown(asked, ids, ks, asked') && Distinct(ks)
    && (forall i :: 0 <= i < |ks| ==> calls <= ks[i])
    && AllBelow(asked, calls)
  }

  lemma NextOrder(tasks: seq<TaskSpec>, n: nat, calls: nat, asked: map<TaskId, nat>,
                  ids: seq<TaskId>, ks: seq<nat>, asked': map<TaskId, nat>)
    requires Extends(calls, asked, ids, ks, asked')
    requires asked.Keys == After(tasks, n) && asked'.Keys == After(tasks, n + 1)
    requires forall m: nat :: EarlierFirst(After(tasks, m), asked)
    ensures forall m: nat :: EarlierFirst(After(tasks, m), asked')
  {
    forall m: nat
      ensures EarlierFirst(After(tasks, m), asked')
    {
      if m <= n {
        AfterGrows(tasks, m, n);
        EarlierStillFirst(After(tasks, m), calls, asked, ids, ks, asked');
      } else {
        AfterGrows(tasks, n + 1, m);
      }
    }
  }

  lemma NewCallsAreLater(calls: nat, asked: map<TaskId, nat>, ids: seq<TaskId>, ks: seq<nat>, asked': map<TaskId, nat>)
    requires Extends(calls, asked, ids, ks, asked')
    requires forall a, b {:trigger asked[a], asked[b]} :: a in asked && b in asked && a != b ==> asked[a] != asked[b]
    ensures forall a, b {:trigger asked'[a], asked'[b]} :: a in asked' && b in asked' && a != b ==>
                                                             asked'[a] != asked'[b]
  {
    forall a, b | a in asked' && b in asked' && a != b
      ensures asked'[a] != asked'[b]
    {
      if a !in asked && b !in asked {
        var i :| 0 <= i < |ids| && ids[i] == a;
        var j :| 0 <= j < |ids| && ids[j] == b;
      }
    }
  }

  lemma NewCallsBound(calls: nat, asked: map<TaskId, nat>, ids: seq<TaskId>, ks: seq<nat>,
                      asked': map<TaskId, nat>, calls': nat)
    requires Extends(calls, asked, ids, ks, asked') && calls <= calls'
    requires forall i :: 0 <= i < |ks| ==> ks[i] < calls'
    ensures AllBelow(asked', calls')
  {
    forall id | id in asked'
      ensures asked'[id] < calls'
    {
      if id !in asked {
        var i :| 0 <= i < |ids| && ids[i] == id;
      }
    }
  }

  lemma EarlierStillFirst(early: set<TaskId>, calls: nat, asked: map<TaskId, nat>,
                          ids: seq<TaskId>, ks: seq<nat>, asked': map<TaskId, nat>)
    requires Extends(calls, asked, ids, ks, asked') && early <= asked.Keys
    requires EarlierFirst(early, asked)
    ensures EarlierFirst(early, asked')
  {
    forall b | b in asked' && b !in asked
      ensures asked'[b] >= calls
    {
      var j :| 0 <= j < |ids| && ids[j] == b;
    }
  }

  /** When nothing is ready any more, failing the rest as a deadlock completes the run. */
  lemma LastGap(tasks: seq<TaskSpec>, goal: string, client: Client, done: set<TaskId>,
                asked: map<TaskId, nat>, results: map<TaskId, SubTaskResult>, results': map<TaskId, SubTaskResult>)
    requires Answered(tasks, goal, client, done, asked, results) && done == Ran(tasks)
    requires results'.Keys == Ids(tasks) && AgreeOn(done, results, results')
    requires forall id <- results' :: id !in done ==> results'[id] == Deadlocked(id)
    ensures Solved(tasks, goal, client, asked, results')
  {
    forall t | t in tasks && t.id in done
      ensures PromptOf(goal, t, results) == PromptOf(goal, t, results')
    {
      PromptReadsDepsOnly(goal, t, results, results');
    }
  }

  /** The deadlocked tasks are exactly those for which no call was placed, and exactly those
      whose dependencies lead to an unknown id or into a cycle. */
  lemma DeadlockedTasks(tasks: seq<TaskSpec>, goal: string, client: Client,
                        asked: map<TaskId, nat>, results: map<TaskId, SubTaskResult>, id: TaskId)
    requires UniqueIds(tasks) && Solved(tasks, goal, client, asked, results) && id in Ids(tasks)
    ensures id !in asked <==> LeadsToCycleOrUnknown(tasks, id)
    ensures id !in asked ==> results[id] == SubTaskResult(id, Failed, "", "deadlock")
  {
    DeadlockIsExact(tasks, id);
  }

  /** The task was asked with its own title and description and with what its dependencies put out,
      and its result is what the response becomes. */
  ghost predicate AskedAndAnswered(goal: string, client: Client, t: TaskSpec, call: nat,
                                   results: map<TaskId, SubTaskResult>, pairs: seq<(TaskId, string)>) {
    && t.id in results && Picks(t.dependsOn, OutputOf(results), pairs)
    && Becomes(t.id, client(call, SubtaskPrompt(goal, t.title, t.description, pairs)), results[t.id])
  }

  lemma EveryResultIsAnAnswer(tasks: seq<TaskSpec>, goal: string, client: Client,
                              asked: map<TaskId, nat>, results: map<TaskId, SubTaskResult>, t: TaskSpec)
    requires Solved(tasks, goal, client, asked, results) && t in tasks && t.id in asked
    ensures exists pairs :: AskedAndAnswered(goal, client, t, asked[t.id], results, pairs)
  {
    var pairs := DepOutputs(t.dependsOn, results);
    PromptShowsOutputs(t.dependsOn, results);
    ResponseBecomes(t, client(asked[t.id], PromptOf(goal, t, results)));
    assert AskedAndAnswered(goal, client, t, asked[t.id], results, pairs);
  }

  /** Every call of the run came back with a completed answer. */
  ghost predicate AlwaysAnswers(client: Client) {
    forall k, p :: client(k, p).Answer?
  }

  /** With a client that always answers, every task that is not deadlocked completes. */
  lemma AnsweredTasksComplete(tasks: seq<TaskSpec>, goal: string, client: Client,
                              asked: map<TaskId, nat>, results: map<TaskId, SubTaskResult>, id: TaskId)
    requires Solved(tasks, goal, client, asked, results) && id in Ids(tasks) && AlwaysAnswers(client)
    ensures id in results && (results[id].status == Completed <==> id in Ran(tasks))
  {
    var t :| t in tasks && t.id == id;
    if id in Ran(tasks) {
      EveryResultIsAnAnswer(tasks, goal, client, asked, results, t);
    }
  }

  // ----- the result does not depend on the interleaving

  /** Two runs of the same plan with a client that answers by the prompt alone end with
      the same results, whatever their interleavings and their parallelism were. */
  lemma RunsAgree(tasks: seq<TaskSpec>, goal: string, client: Client,
                  asked1: map<TaskId, nat>, results1: map<TaskId, SubTaskResult>,
                  asked2: map<TaskId, nat>, results2: map<TaskId, SubTaskResult>)
    requires Stateless(client)
    requires Solved(tasks, goal, client, asked1, results1)
    requires Solved(tasks, goal, client, asked2, results2)
    ensures results1 == results2
  {
    RanIsLeastFixpoint(tasks);
    var same := set id | id in Ran(tasks) && results1[id] == results2[id];
    forall t | t in tasks && DepsIn(t, same)
      ensures t.id in same
    {
      assert DepsIn(t, Ran(tasks));
      AgreeAt(goal, client, same, t, asked1[t.id], results1, asked2[t.id], results2);
    }
    assert Closed(tasks, same);
  }

  lemma AgreeAt(goal: string, client: Client, done: set<TaskId>, t: TaskSpec,
                k1: nat, results1: map<TaskId, SubTaskResult>, k2: nat, results2: map<TaskId, SubTaskResult>)
    requires Stateless(client) && DepsIn(t, done)
    requires AgreeOn(done, results1, results2)
    ensures OutcomeOf(t, client(k1, PromptOf(goal, t, results1)))
            == OutcomeOf(t, client(k2, PromptOf(goal, t, results2)))
  {
    PromptReadsDepsOnly(goal, t, results1, results2);
    var p := PromptOf(goal, t, results1);
    assert client(k1, p) == client(k2, p);
  }
}
