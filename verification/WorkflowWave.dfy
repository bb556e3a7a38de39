/**
 One wave of the workflow executor: `gather` over coroutines that share a semaphore, as a
 state machine whose steps may come in any order.

 The client is an arbitrary function of the number of the call and the prompt, which
 covers every client, stateful or not. A coroutine that gets a permit builds its prompt,
 places its call and goes to sleep; it wakes up with the answer and gives the permit back.
 */
module WorkflowWave {
  import opened Common
  import opened Picking
  import opened WorkflowGraph

  datatype TaskStatus = Pending | Running | Completed | Failed

  datatype SubTaskResult = SubTaskResult(taskId: TaskId, status: TaskStatus, output: string, error: string)

  datatype Prompt =
    | SubtaskPrompt(goal: string, title: string, description: string, depOutputs: seq<(TaskId, string)>)
    | MergePrompt(goal: string, parts: seq<(TaskId, string)>)

  /** What a call to the client comes back with: a completed answer, a dictionary with
      another status (and perhaps an error entry), something else, or an exception. */
  datatype Response =
    | Answer(content: string)
    | Refusal(error: Option<string>)
    | NotADict(text: string)
    | Raised(message: string)

  type Client = (nat, Prompt) -> Response

  function DepOutputs(deps: seq<TaskId>, results: map<TaskId, SubTaskResult>): seq<(TaskId, string)> {
    if deps == [] then []
    else
      var d := deps[|deps| - 1];
      DepOutputs(deps[..|deps| - 1], results)
      + if d in results && results[d].output != "" then [(d, results[d].output)] else []
  }

  function PromptOf(goal: string, t: TaskSpec, results: map<TaskId, SubTaskResult>): Prompt {
    SubtaskPrompt(goal, t.title, t.description, DepOutputs(t.dependsOn, results))
  }

  function OutcomeOf(t: TaskSpec, r: Response): SubTaskResult {
    match r
    case Answer(content) => SubTaskResult(t.id, Completed, content, "")
    case Refusal(None) => SubTaskResult(t.id, Failed, "", "llm_failed")
    case Refusal(Some(e)) => SubTaskResult(t.id, Failed, "", e)
    case NotADict(_) => SubTaskResult(t.id, Failed, "", "llm_failed")
    case Raised(m) => SubTaskResult(t.id, Failed, "", m)
  }

  // ----- what prompts hold and what responses become

  /** The dependency has something to show. */
  ghost predicate HasOutput(results: map<TaskId, SubTaskResult>, d: TaskId) {
    d in results && results[d].output != ""
  }

  /** The pair a prompt shows for a dependency, if any. */
  ghost function OutputOf(results: map<TaskId, SubTaskResult>): TaskId -> Option<(TaskId, string)> {
    (d: TaskId) => if HasOutput(results, d) then Some((d, results[d].output)) else None
  }

  /** A prompt shows exactly the non-empty outputs of the task's dependencies, in their order. */
  lemma {:induction false} PromptShowsOutputs(deps: seq<TaskId>, results: map<TaskId, SubTaskResult>)
    ensures Picks(deps, OutputOf(results), DepOutputs(deps, results))
  {
    if deps == [] {
      NothingPicked(deps, OutputOf(results));
    } else {
      PromptShowsOutputs(deps[..|deps| - 1], results);
      PickLast(deps, OutputOf(results), DepOutputs(deps[..|deps| - 1], results));
    }
  }

  /** A completed answer is the output of a completed task; anything else fails it, with the error
      that came back or, if none did, with "llm_failed". */
  ghost predicate Becomes(id: TaskId, r: Response, result: SubTaskResult) {
    && result.taskId == id
    && (r.Answer? <==> result.status == Completed)
    && (!r.Answer? <==> result.status == Failed)
    && result.output == (if r.Answer? then r.content else "")
    && result.error == if r.Raised? then r.message
                       else if r.Refusal? && r.error.Some? then r.error.value
                       else if r.Answer? then ""
                       else "llm_failed"
  }

  lemma ResponseBecomes(t: TaskSpec, r: Response)
    ensures Becomes(t.id, r, OutcomeOf(t, r))
  {
  }

  /** A prompt depends on the results of the task's dependencies and on nothing else. */
  lemma PromptReadsDepsOnly(goal: string, t: TaskSpec, r1: map<TaskId, SubTaskResult>, r2: map<TaskId, SubTaskResult>)
    requires forall d <- t.dependsOn :: d in r1 && d in r2 && r1[d] == r2[d]
    ensures PromptOf(goal, t, r1) == PromptOf(goal, t, r2)
  {
    DepOutputsAgree(t.dependsOn, r1, r2);
  }

  lemma {:induction false} DepOutputsAgree(deps: seq<TaskId>, r1: map<TaskId, SubTaskResult>,
                                           r2: map<TaskId, SubTaskResult>)
    requires forall d <- deps :: d in r1 && d in r2 && r1[d] == r2[d]
    ensures DepOutputs(deps, r1) == DepOutputs(deps, r2)
  {
    if deps != [] {
      DepOutputsAgree(deps[..|deps| - 1], r1, r2);
    }
  }

  // ----- the state machine

  /** What is fixed while a wave runs. */
  datatype Job = Job(goal: string, tasks: seq<TaskSpec>, results: map<TaskId, SubTaskResult>, client: Client) {
    function Ask(i: nat): Prompt
      requires i < |tasks|
    {
      PromptOf(goal, tasks[i], results)
    }

    function Reply(i: nat, call: nat): SubTaskResult
      requires i < |tasks|
    {
      OutcomeOf(tasks[i], client(call, Ask(i)))
    }
  }

  datatype Coroutine =
    | Waiting
    | Inside(call: nat, prompt: Prompt)
    | Finished(call: nat, result: SubTaskResult)

  datatype WaveState = WaveState(cos: seq<Coroutine>, permits: nat, calls: nat)

  function Start(job: Job, maxParallel: nat, calls: nat): WaveState {
    WaveState(seq(|job.tasks|, _ => Waiting), maxParallel, calls)
  }

  predicate CanStep(ws: WaveState, i: nat) {
    i < |ws.cos| && ((ws.cos[i].Waiting? && ws.permits > 0) || ws.cos[i].Inside?)
  }

  function Step(job: Job, ws: WaveState, i: nat): WaveState
    requires |ws.cos| == |job.tasks| && CanStep(ws, i)
  {
    match ws.cos[i]
    case Waiting =>
      WaveState(ws.cos[i := Inside(ws.calls, job.Ask(i))], ws.permits - 1, ws.calls + 1)
    case Inside(call, prompt) =>
      var result := OutcomeOf(job.tasks[i], job.client(call, prompt));
      ws.(cos := ws.cos[i := Finished(call, result)], permits := ws.permits + 1)
  }

  predicate AllFinished(ws: WaveState) {
    forall c <- ws.cos :: c.Finished?
  }

  function InsideCount(cos: seq<Coroutine>): nat {
    if cos == [] then 0 else (if cos[0].Inside? then 1 else 0) + InsideCount(cos[1..])
  }

  /** Steps still to be taken: two for a waiting coroutine, one for one that is inside. */
  function Work(cos: seq<Coroutine>): nat {
    if cos == [] then 0
    else (if cos[0].Waiting? then 2 else if cos[0].Inside? then 1 else 0) + Work(cos[1..])
  }

  function Started(cos: seq<Coroutine>): nat {
    if cos == [] then 0 else (if cos[0].Waiting? then 0 else 1) + Started(cos[1..])
  }

  lemma {:induction false} CountsAfter(cos: seq<Coroutine>, i: nat, c: Coroutine)
    requires i < |cos|
    requires (cos[i].Waiting? && c.Inside?) || (cos[i].Inside? && c.Finished?)
    ensures InsideCount(cos[i := c]) == InsideCount(cos) + if c.Inside? then 1 else -1
    ensures Work(cos[i := c]) == Work(cos) - 1
    ensures Started(cos[i := c]) == Started(cos) + if c.Inside? then 1 else 0
  {
    if i > 0 {
      assert cos[i := c][1..] == cos[1..][i - 1 := c];
      CountsAfter(cos[1..], i - 1, c);
    } else {
      assert cos[i := c][1..] == cos[1..];
    }
  }

  /** What every step keeps: at most `maxParallel` coroutines are inside, each has the
      prompt that the results fixed before the wave give, calls are never shared, and a
      finished coroutine holds the client's answer to its own prompt. */
  ghost predicate WaveInv(job: Job, maxParallel: nat, calls0: nat, ws: WaveState) {
    && |ws.cos| == |job.tasks|
    && InsideCount(ws.cos) + ws.permits == maxParallel
    && ws.calls == calls0 + Started(ws.cos)
    && (forall i :: 0 <= i < |ws.cos| ==> CoroutineInv(job, calls0, ws.calls, i, ws.cos[i]))
    && (forall i, j :: 0 <= i < j < |ws.cos| && !ws.cos[i].Waiting? && !ws.cos[j].Waiting? ==>
          ws.cos[i].call != ws.cos[j].call)
  }

  ghost predicate CoroutineInv(job: Job, calls0: nat, calls: nat, i: nat, c: Coroutine)
    requires i < |job.tasks|
  {
    match c
    case Waiting => true
    case Inside(call, prompt) => calls0 <= call < calls && prompt == job.Ask(i)
    case Finished(call, result) => calls0 <= call < calls && result == job.Reply(i, call)
  }

  lemma {:induction false} CountsAtStart(n: nat)
    ensures InsideCount(seq(n, _ => Waiting)) == 0 && Started(seq(n, _ => Waiting)) == 0
    ensures Work(seq(n, _ => Waiting)) == 2 * n
  {
    if n > 0 {
      assert seq(n, _ => Waiting)[1..] == seq(n - 1, _ => Waiting);
      CountsAtStart(n - 1);
    }
  }

  lemma StartInv(job: Job, maxParallel: nat, calls0: nat)
    ensures WaveInv(job, maxParallel, calls0, Start(job, maxParallel, calls0))
    ensures Work(Start(job, maxParallel, calls0).cos) == 2 * |job.tasks|
  {
    CountsAtStart(|job.tasks|);
  }

  lemma StepKeepsInv(job: Job, maxParallel: nat, calls0: nat, ws: WaveState, i: nat)
    requires WaveInv(job, maxParallel, calls0, ws) && CanStep(ws, i)
    ensures WaveInv(job, maxParallel, calls0, Step(job, ws, i))
    ensures Work(Step(job, ws, i).cos) == Work(ws.cos) - 1
  {
    var next := Step(job, ws, i);
    CountsAfter(ws.cos, i, next.cos[i]);
  }

  lemma {:induction false} NoneInside(cos: seq<Coroutine>)
    requires forall c <- cos :: !c.Inside?
    ensures InsideCount(cos) == 0
  {
    if cos != [] {
      NoneInside(cos[1..]);
    }
  }

  lemma {:induction false} AllStarted(cos: seq<Coroutine>)
    requires forall c <- cos :: c.Finished?
    ensures Started(cos) == |cos| && Work(cos) == 0
  {
    if cos != [] {
      assert cos[0] in cos;
      AllStarted(cos[1..]);
    }
  }

  /** With at least one permit a wave is never stuck before all coroutines have finished. */
  lemma NeverStuck(job: Job, maxParallel: nat, calls0: nat, ws: WaveState) returns (i: nat)
    requires maxParallel > 0 && WaveInv(job, maxParallel, calls0, ws) && !AllFinished(ws)
    ensures CanStep(ws, i)
  {
    if k :| 0 <= k < |ws.cos| && ws.cos[k].Inside? {
      i := k;
    } else {
      NoneInside(ws.cos);
      var c :| c in ws.cos && !c.Finished?;
      i :| 0 <= i < |ws.cos| && ws.cos[i] == c;
    }
  }

  // ----- whole interleavings

  /** Letting the coroutines step in the order of the schedule leads from `ws` to `end`. */
  ghost predicate Leads(job: Job, ws: WaveState, schedule: seq<nat>, end: WaveState)
    requires |ws.cos| == |job.tasks|
    decreases schedule
  {
    if schedule == [] then ws == end
    else CanStep(ws, schedule[0]) && Leads(job, Step(job, ws, schedule[0]), schedule[1..], end)
  }

  /** However the coroutines interleave, and wherever the interleaving is stopped, at most
      `maxParallel` subtasks are in `execute_subtask`; no interleaving is longer than two
      steps per task, and only one of that length leaves nothing to do. */
  lemma {:induction false} EveryInterleaving(job: Job, maxParallel: nat, calls0: nat, ws: WaveState,
                                             schedule: seq<nat>, end: WaveState)
    requires WaveInv(job, maxParallel, calls0, ws) && Leads(job, ws, schedule, end)
    ensures WaveInv(job, maxParallel, calls0, end) && InsideCount(end.cos) <= maxParallel
    ensures |schedule| == Work(ws.cos) - Work(end.cos)
    decreases schedule
  {
    if schedule != [] {
      StepKeepsInv(job, maxParallel, calls0, ws, schedule[0]);
      EveryInterleaving(job, maxParallel, calls0, Step(job, ws, schedule[0]), schedule[1..], end);
    }
  }

  /** A complete interleaving: two steps and one call for each task, and every task has
      the client's answer to the prompt that the earlier results give. */
  lemma CompleteInterleaving(job: Job, maxParallel: nat, calls0: nat, schedule: seq<nat>, end: WaveState)
    requires Leads(job, Start(job, maxParallel, calls0), schedule, end) && AllFinished(end)
    ensures |schedule| == 2 * |job.tasks| && end.calls == calls0 + |job.tasks| && end.permits == maxParallel
    ensures |end.cos| == |job.tasks|
    ensures forall i :: 0 <= i < |end.cos| ==>
                          end.cos[i].Finished? && end.cos[i].result == job.Reply(i, end.cos[i].call)
  {
    StartInv(job, maxParallel, calls0);
    EveryInterleaving(job, maxParallel, calls0, Start(job, maxParallel, calls0), schedule, end);
    AllStarted(end.cos);
    NoneInside(end.cos);
  }

  ghost predicate Stateless(client: Client) {
    forall k, k', p :: client(k, p) == client(k', p)
  }

  /** With a client that answers by the prompt alone, all complete interleavings, under any
      two limits, end with the same results. */
  lemma WaveIsConfluent(job: Job, max1: nat, calls1: nat, schedule1: seq<nat>, end1: WaveState,
                        max2: nat, calls2: nat, schedule2: seq<nat>, end2: WaveState)
    requires Stateless(job.client)
    requires Leads(job, Start(job, max1, calls1), schedule1, end1) && AllFinished(end1)
    requires Leads(job, Start(job, max2, calls2), schedule2, end2) && AllFinished(end2)
    ensures |end1.cos| == |end2.cos| == |job.tasks|
    ensures forall i :: 0 <= i < |job.tasks| ==>
                          end1.cos[i].Finished? && end2.cos[i].Finished? && end1.cos[i].result == end2.cos[i].result
  {
    CompleteInterleaving(job, max1, calls1, schedule1, end1);
    CompleteInterleaving(job, max2, calls2, schedule2, end2);
    forall i | 0 <= i < |job.tasks|
      ensures end1.cos[i].result == end2.cos[i].result
    {
      var k1, k2 := end1.cos[i].call, end2.cos[i].call;
      assert job.client(k1, job.Ask(i)) == job.client(k2, job.Ask(i));
    }
  }
}
