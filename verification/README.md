# Engines of fusion code modelization, modelled in Dafny

The system runs language-model work through small in-process engines that keep state. This
project models eight of them and proves what they keep over whole runs:

- the workflow executor, which runs the tasks of a plan in waves under a semaphore
  (`WorkflowGraph`, `WorkflowWave`, `WorkflowRun`, `WorkflowOrder`, `WorkflowExecutor`);
- the trace store and its bounded breadth-first traces (`TraceGraph`, `TraceStore`,
  `TraceTracker`);
- the hook pipeline, which is implemented twice, and the secret scrubber (`SecretScrub`,
  `SecretForms`, `Hooks`, `SafeWriter`);
- snapshots of a project, restore with undo, and rewind (`Snapshots`, `SnapshotHistory`,
  `SnapshotManager`);
- sessions with their lifecycle, stored history and client cache (`Sessions`,
  `SessionRuns`, `SessionEngine`, `ClientCache`);
- the self-heal loop (`AgentLoop`);
- the sliding-window rate limiter and the load balancer (`RateLimiter`, `Balancing`,
  `LoadBalancer`);
- the rotating audit log and the offline cache (`AuditFiles`, `AuditRuns`, `AuditStore`,
  `OfflineCache`).

What the engines call (a model client, a tool, a guard, a clock, a disk that may fail) is a
function that the theorems quantify over. Objects that the system updates in place are
classes whose methods carry the loops of the original; each method is proved against a
function of its old state, and the properties of whole runs are proved about those functions.
`Common`, `Dicts`, `Sorting` and `Picking` hold the option type, insertion-ordered dictionaries, a
stable sort and what a comprehension picks from a list. `dafny verify dfyconfig.toml` checks everything.

Seven behaviours that the code has, against what one would expect of it, are proved as such,
each with the exact condition under which the expectation does hold:

- adding an edge id twice leaves a stale adjacency entry behind for good
  (`TraceStore.AgreementIsExact`);
- a failed restore into an empty project is not undone (`Snapshots.AllOrNothingExactly`);
- a balancer that is given round robin and restarts from a saved state of another mode can
  choose an overloaded node while another is idle (`LoadBalancer.RunsAreBalancedExactly`);
- the trace file of the self-heal loop keeps objective and tool name unscrubbed
  (`AgentLoop.FileStaysCleanExactly`);
- a session file keeps name, error and configuration unscrubbed
  (`SessionRuns.SavedIsCleanExactly`);
- with an offline-cache index in which an entry lies under another key, what eviction takes is
  not the oldest entries (`OfflineCache.OldestGoExactly`);
- a tenth rotated audit file that is overwritten is lost, so the log is complete for ten
  rotations and no longer (`AuditFiles.FilesStayContiguous`, `AuditFiles.SmallHistoryIsKept`).

## Model

| member | source | states |
|---|---|---|
| WorkflowGraph.RanIsLeastFixpoint | fusion_code_modelization/workflow/executor.py:97-117 | What the waves run is the least set of ids closed under "all dependencies have run, so the task has run", for every plan: cyclic, dangling or with repeated ids |
| WorkflowGraph.WaveIsLongestChain | fusion_code_modelization/workflow/executor.py:97-104 | With unique ids, a task that first runs in wave n heads a dependency chain of n tasks and no longer one |
| WorkflowGraph.RanDeps | fusion_code_modelization/workflow/executor.py:103 | With unique ids, a task that has run within n waves has all its dependencies run within n - 1 |
| WorkflowGraph.CycleNeverRuns | fusion_code_modelization/workflow/executor.py:97-117 | With unique ids, no task on a dependency cycle is ever run, in however many waves |
| WorkflowGraph.DeadlockIsExact | fusion_code_modelization/workflow/executor.py:105-116 | With unique ids, a task is never run if and only if its dependencies lead to an unknown id or back into a task already on the way |
| WorkflowGraph.DeadlockNeedsCycle | fusion_code_modelization/workflow/executor.py:105-117 | If every dependency id exists and something is left over, there is a real dependency cycle, and all its tasks are among those left over (pigeonhole) |
| WorkflowGraph.StopsAt | fusion_code_modelization/workflow/executor.py:105-117 | Once nothing is ready, the set of done ids is the least fixpoint |
| WorkflowWave.PromptReadsDepsOnly | fusion_code_modelization/workflow/executor.py:171-183 | A prompt depends on the recorded results of the task's own dependencies only |
| WorkflowWave.PromptShowsOutputs | fusion_code_modelization/workflow/executor.py:171-183 | A prompt shows exactly the ids and outputs of the dependencies that are recorded with a non-empty output, in their order |
| WorkflowWave.ResponseBecomes | fusion_code_modelization/workflow/executor.py:185-203 | What each kind of response becomes: content completes the task with that output; a refusal, something that is no dictionary and an exception fail it with the respective error |
| WorkflowWave.StepKeepsInv | fusion_code_modelization/workflow/executor.py:119-127 | Every step of every coroutine keeps: permits and subtasks inside add up to max_parallel, calls are never shared, each prompt is the one fixed before the wave, and a finished coroutine holds the answer to its own prompt; each step uses up one unit of work |
| WorkflowWave.NeverStuck | fusion_code_modelization/workflow/executor.py:95-127 | With at least one permit some coroutine can step until all have finished |
| WorkflowWave.EveryInterleaving | fusion_code_modelization/workflow/executor.py:95-127 | Along every interleaving at most max_parallel subtasks are inside execute_subtask, and its length is exactly the work done |
| WorkflowWave.CompleteInterleaving | fusion_code_modelization/workflow/executor.py:119-137 | Every complete interleaving takes two steps and one call per task, releases all permits and leaves each task the answer to its own prompt |
| WorkflowWave.WaveIsConfluent | fusion_code_modelization/workflow/executor.py:95-137 | With a client that answers by the prompt alone, any two complete interleavings, under any two limits, give the same results |
| WorkflowRun.NextGap | fusion_code_modelization/workflow/executor.py:97-137 | With unique ids, a wave leads from the state after n waves to the state after n + 1: results are the client's answers to prompts made of final outputs, and its calls come after all earlier ones |
| WorkflowRun.LastGap | fusion_code_modelization/workflow/executor.py:105-117 | Failing what is left when nothing is ready completes the run: every task has the answer to a prompt made of its dependencies' final outputs, or is deadlocked |
| WorkflowRun.DeadlockedTasks | fusion_code_modelization/workflow/executor.py:105-116 | With unique ids, in a finished run the tasks without a call are exactly those whose dependencies lead to a cycle or an unknown id, and they carry the deadlock error |
| WorkflowRun.RunsAgree | fusion_code_modelization/workflow/executor.py:85-165 | Two finished runs of one plan with a client that answers by the prompt alone have the same results, whatever their interleavings and limits |
| WorkflowRun.EveryResultIsAnAnswer | fusion_code_modelization/workflow/executor.py:167-203 | Every task that was asked got a prompt with its own title and description and exactly the non-empty final outputs of its dependencies, and its result is what the response to that prompt becomes |
| WorkflowRun.AnsweredTasksComplete | fusion_code_modelization/workflow/executor.py:185-203 | If every call is answered, exactly the tasks that the waves run are completed |
| WorkflowOrder.FinalOrderMeaning | fusion_code_modelization/workflow/executor.py:97-144 | The order in which a finished run records its results holds every task: those of an earlier wave first, those that no wave runs last, and those of one wave as in the plan |
| WorkflowExecutor.WorkflowExecutor.Execute | fusion_code_modelization/workflow/executor.py:85-165 | Terminates for every plan with max_parallel at least 1 and leaves no task pending; success and failure counts add up to the results, and the status follows from them. On a fresh executor and untouched plan with unique ids: exactly one result per task, solved as above, listed in the order above, calls in wave order, task statuses those of the results. If every call is answered, such a run completes if and only if there are tasks and the waves run all of them, is partial if they run some only, and fails if they run none |
| WorkflowExecutor.WorkflowExecutor.RunWaves | fusion_code_modelization/workflow/executor.py:97-142 | The while loop: it ends because the pending tasks shrink with every wave, and on a fresh run it ends with every task solved or deadlocked |
| WorkflowExecutor.WorkflowExecutor.OneWave | fusion_code_modelization/workflow/executor.py:119-137 | One turn on the live task objects: exactly the ready tasks get a final status and a recorded result, everything else is as before |
| WorkflowExecutor.WorkflowExecutor.RunWave | fusion_code_modelization/workflow/executor.py:119-127 | Any scheduling of the coroutines ends, with one call per task and each result the answer to its task's prompt |
| WorkflowExecutor.WorkflowExecutor.FailAll | fusion_code_modelization/workflow/executor.py:105-117 | Every pending task, and no other, becomes failed with a deadlock result |
| WorkflowExecutor.ReadyIsWave | fusion_code_modelization/workflow/executor.py:98-104 | With unique ids, the ready list holds exactly the ids of the next wave when statuses and done ids agree |
| WorkflowExecutor.PendingShrinks | fusion_code_modelization/workflow/executor.py:97-137 | Every wave strictly shrinks the set of pending positions, for every plan |
| WorkflowExecutor.AllCovered | fusion_code_modelization/workflow/executor.py:97 | When as many ids are done as there are tasks, no task is pending and the done ids are all ids |
| WorkflowExecutor.FreshRunEnds | fusion_code_modelization/workflow/executor.py:97-137 | When nothing is ready in a fresh run, with unique ids, failing the rest yields one result per task, statuses equal to the results, and the least fixpoint reached in that wave and no earlier |
| WorkflowExecutor.CountsSplit | fusion_code_modelization/workflow/executor.py:57-62 | Completed and failed results together are all results when every result is final |
| WorkflowExecutor.OnePerTask | fusion_code_modelization/workflow/executor.py:144 | With unique ids a finished fresh run has exactly as many results as tasks |
| WorkflowExecutor.RunsAgreeInOrder | fusion_code_modelization/workflow/executor.py:85-208 | Two such runs of one plan, with a client that answers by the prompt alone, list the same results in the same order and ask for the same merge, whatever their interleavings and limits |
| WorkflowExecutor.RunIsRecorded | fusion_code_modelization/workflow/executor.py:85-165 | What a fresh run of Execute leaves behind is a run of that kind |
| WorkflowExecutor.AnsweredPlanCompletes | fusion_code_modelization/workflow/executor.py:144-155 | The status of a fresh run in which every call is answered: completed exactly when there are tasks and the waves run all of them, failed when they run none, else partial |
| WorkflowExecutor.MergeShowsOutputs | fusion_code_modelization/workflow/executor.py:205-208 | The merge prompt shows exactly the ids and outputs of the results with a non-empty output, in their order |
| WorkflowExecutor.MergedOutputIs | fusion_code_modelization/workflow/executor.py:209-223 | What each kind of response to the merge prompt becomes |
| TraceGraph.WithinIsReach | fusion_code_modelization/trace/tracker.py:55-71 | The level-by-level closure up to k holds exactly the stored nodes that some walk of at most k edges through stored nodes reaches |
| TraceGraph.Duality | fusion_code_modelization/trace/tracker.py:43-111 | If the two adjacency maps are opposite, v is within k of u forward exactly when u is within k of v backward |
| TraceStore.ReplayIsLive | fusion_code_modelization/trace/store.py:33-47 | However node and edge additions are interleaved, reading all nodes and then all edges from the logs rebuilds the same state |
| TraceStore.IndexIsHistory | fusion_code_modelization/trace/store.py:42-47 | For every node the adjacency entry lists the targets (or sources) of all edges ever added there, in order |
| TraceStore.IndexesAreOpposite | fusion_code_modelization/trace/store.py:44-46 | In every reachable state v is listed under u forward exactly when u is listed under v backward |
| TraceStore.AgreementIsExact | fusion_code_modelization/trace/store.py:33-47 | After any history of nodes and edges the indexes list exactly the stored edges, each once, if and only if no edge id was added twice |
| TraceStore.NewIdsAgree | fusion_code_modelization/trace/store.py:33-47 | While edge ids are new, both adjacency maps are the projections of the stored edges, after every add_node, add_edge and load |
| TraceStore.TraceStore.IndexesAgreeExactly | fusion_code_modelization/trace/store.py:33-47 | In every state of the store, loaded or built up, indexes and stored edges agree if and only if no edge id was ever added twice; from there add_node keeps the agreement, and add_edge keeps it exactly for a new id |
| TraceStore.RepeatedIdIsStale | fusion_code_modelization/trace/store.py:43-46 | After any history that adds an edge id twice some adjacency entry has no stored edge, whatever is added later |
| TraceStore.TraceStore.constructor | fusion_code_modelization/trace/store.py:120-144 | Loading gives the state replayed from the parsed lines of any logs; blank and malformed lines are skipped |
| TraceStore.TraceStore.AddNode | fusion_code_modelization/trace/store.py:33-40 | The new state is the old one with the node added; with a writable log the log stays complete |
| TraceStore.TraceStore.AddEdge | fusion_code_modelization/trace/store.py:42-47 | The new state is the old one with the edge added to the edges and both indexes; with a writable log the log stays complete |
| TraceStore.TraceStore.Reopen | fusion_code_modelization/trace/store.py:120-144 | While no append has failed, a store opened on the same logs has the same state |
| TraceTracker.TurnKeepsInv | fusion_code_modelization/trace/tracker.py:55-71 | One turn of the search keeps the invariant: depths are exact distances, nodes are queued by distance and once, everything as close as the head has been seen |
| TraceTracker.OrderInv | fusion_code_modelization/trace/tracker.py:55-71 | The invariant holds after any number of turns |
| TraceTracker.NodesAreExact | fusion_code_modelization/trace/tracker.py:43-76 | The finished search has visited exactly the stored nodes within the bound, each once, in nondecreasing exact distance |
| TraceTracker.EdgesAreExact | fusion_code_modelization/trace/tracker.py:62-67 | The edges found are exactly the first stored edges along the index entries of nodes closer than the bound, each once |
| TraceTracker.RightIsExact | fusion_code_modelization/trace/tracker.py:43-76 | A finished search order, turned into the list of visited nodes, is an exact trace: the nodes within the bound, each once, none before a nearer one |
| TraceTracker.ArtifactIsFirst | fusion_code_modelization/trace/tracker.py:44-47 | A trace starts from the first stored node that carries the artifact |
| TraceTracker.TracedEitherWay | fusion_code_modelization/trace/tracker.py:43-111 | In terms of the edges ever added: forward, a node is traced if and only if a path of at most max_depth edges leads to it from source to target through stored nodes, backward if one leads from it; a stored edge is in the chain if and only if it leaves (enters) a node nearer than the bound and is the first stored one between its two ends |
| TraceTracker.Search | fusion_code_modelization/trace/tracker.py:51-71 | The queue loop terminates on every graph and computes the search order, visited nodes and edges |
| TraceTracker.TraceTracker.Trace | fusion_code_modelization/trace/tracker.py:43-111 | A trace is empty exactly when no node carries the artifact; otherwise it holds exactly the stored nodes within the bound, each once and nearest first, and exactly their edges. Forward, this means along added edges from source to target; backward, from target to source |
| TraceTracker.TraceTracker.TracesAgree | fusion_code_modelization/trace/tracker.py:43-111 | The forward trace of one node holds another exactly when the other's backward trace under the same bound holds the one |
| TraceTracker.TraceTracker.ForwardAndBackwardAgree | fusion_code_modelization/trace/tracker.py:43-111 | In every state of the store, v is in the forward range of u within k exactly when u is in the backward range of v within k |
| SecretScrub.MatchIsLongest | fusion_code_modelization/core/hooks.py:31-41 | A pattern matches exactly when some head of the text is in its language, and then consumes the longest such head |
| SecretScrub.FirstMatchIsSecret | fusion_code_modelization/core/hooks.py:31-41 | The alternation matches exactly when a head of the text is a secret |
| SecretScrub.SecretsAvoidMarker | fusion_code_modelization/core/hooks.py:31-42 | No secret contains a bracket or the colon of the marker, and every secret is longer than either of the marker's words |
| SecretForms.SecretsAreExactly | fusion_code_modelization/core/hooks.py:31-41 | Exactly these texts are secrets: the key and token formats of the seven providers, character by character |
| SecretScrub.NoWindowIsSecret | fusion_code_modelization/core/hooks.py:45-51 | No substring of the output is a secret: not in a gap, not in a marker, not across their border |
| SecretScrub.ScrubIsComplete | fusion_code_modelization/core/hooks.py:45-51 | For every text the output of scrubbing contains no match of any pattern |
| SecretScrub.ScrubFixpoint | fusion_code_modelization/core/hooks.py:45-51 | Scrubbing leaves a text as it is, and counts no replacement, if and only if it contains no secret |
| SecretScrub.ScrubIsIdempotent | fusion_code_modelization/core/hooks.py:45-51 | Scrubbing twice is scrubbing once |
| SecretScrub.ScrubReplacesOnlySecrets | fusion_code_modelization/core/hooks.py:45-51 | The text is cut from left to right into secrets and kept characters, kept only where no secret starts; the output is the cut with each secret replaced by one marker, and the count is their number |
| Hooks.LastChangeIsComposition | fusion_code_modelization/core/hooks.py:98-118 | The content of the last modification is what all modifications, composed from left to right, make of the payload |
| Hooks.RightDecisionIsUnique | fusion_code_modelization/core/hooks.py:98-118 | Handlers and payload determine the decision |
| Hooks.RightDecisionExists | fusion_code_modelization/core/hooks.py:98-118 | There is a right decision for every handler list and payload |
| Hooks.DecisionMeaning | fusion_code_modelization/core/hooks.py:98-118 | A decision denies exactly when some handler raises or denies on what the earlier ones left; otherwise it carries the composition of all modifications |
| Hooks.HookRegistry.Emit | fusion_code_modelization/core/hooks.py:98-118 | The loop returns the right decision for the handlers of the event, and allows when hooks are disabled |
| Hooks.HookRegistry.Default | fusion_code_modelization/core/hooks.py:222-242 | The default registry holds the built-in handlers in this order for each event |
| Hooks.BlockedMeaning | fusion_code_modelization/core/hooks.py:54-127 | Exactly the paths that hold two climbs in a row or one of the three system directories are blocked |
| Hooks.PathGuardDecides | fusion_code_modelization/core/hooks.py:121-127 | The path guard denies exactly a blocked path, with the path in its reason |
| Hooks.ScrubHookDecides | fusion_code_modelization/core/hooks.py:137-145 | The scrubbing handler changes exactly a content that holds a secret, to the scrubbed content, and never denies |
| Hooks.PassiveHandlers | fusion_code_modelization/core/hooks.py:148-171 | The audit handler, and a guard that is switched off, never deny or change anything |
| Hooks.DangerousIsDenied | fusion_code_modelization/core/hooks.py:130-134 | The default PRE_EXEC handlers deny exactly a dangerous command, which is the content if no command is given |
| SafeWriter.SafeWriter.Emit | fusion_code_modelization/core/safe_writer.py:51-75 | The second implementation of the fold agrees with the registry: it raises exactly when the registry denies and otherwise returns the same decision |
| SafeWriter.PayloadTells | fusion_code_modelization/core/safe_writer.py:54-56 | What the handlers of a write are told |
| SafeWriter.SafeWriter.WriteText | fusion_code_modelization/core/safe_writer.py:91-99 | A denied write changes nothing; any other stores the content as modified by the right decision |
| SafeWriter.SafeWriter.Unlink | fusion_code_modelization/core/safe_writer.py:115-124 | A denied deletion changes nothing; any other deletes and tells whether there was a file |
| SafeWriter.DefaultPipelineScrubs | fusion_code_modelization/core/safe_writer.py:91-99 | For the default handlers with the guard off, the right decision denies exactly a blocked path, and otherwise leaves the scrubbed content, which holds no secret |
| SafeWriter.WriteByDefault | fusion_code_modelization/core/safe_writer.py:91-99 | A writer made with the default registry and the guard off stores the scrubbed text under every path that is not blocked, and refuses a blocked one without changing a file |
| Snapshots.DeleteAllMeaning | fusion_code_modelization/snapshot/manager.py:186-191 | The delete loop succeeds exactly when no operation failed, and then has removed exactly its paths |
| Snapshots.WriteAllMeaning | fusion_code_modelization/snapshot/manager.py:192-195 | The write loop succeeds exactly when no operation failed, and then has added exactly its texts |
| Snapshots.ImposeMeaning | fusion_code_modelization/snapshot/manager.py:184-196 | Deleting the surplus and writing the rest gives exactly the target map unless an operation fails |
| Snapshots.RestoreIsAllOrNothing | fusion_code_modelization/snapshot/manager.py:160-199 | For every pattern of failures: if the undo snapshot was saved, the undo itself works and the project had a file, a restore ends with the snapshot's files or with the files it started from |
| Snapshots.RestoreIsExact | fusion_code_modelization/snapshot/manager.py:160-199 | A successful restore gives exactly the snapshot's files; when no operation fails it succeeds and leaves no undo snapshot |
| Snapshots.RestoreOfNothing | fusion_code_modelization/snapshot/manager.py:160-165 | A snapshot that does not exist, or does not parse, is not restored, and nothing changes |
| Snapshots.OperationsAreLocal | fusion_code_modelization/snapshot/manager.py:51-57 | A disk operation succeeds exactly when it meets no failure, and touches no file or snapshot but its own |
| Snapshots.EmptyProjectIsNotRestored | fusion_code_modelization/snapshot/manager.py:243-247 | A restore into an empty project whose first write tears is not undone: the undo takes an empty map for a missing one |
| Snapshots.AllOrNothingExactly | fusion_code_modelization/snapshot/manager.py:160-264 | A restore is all or nothing under every pattern of failures if and only if the project is not empty or the snapshot is |
| SnapshotHistory.ListingIsHistory | fusion_code_modelization/snapshot/manager.py:266-282 | The list holds every snapshot that can be loaded, once, oldest first, whatever order the directory has |
| SnapshotHistory.RestoreKeepsHistory | fusion_code_modelization/snapshot/manager.py:160-241 | A restore changes no listed snapshot, whether it succeeds or fails |
| SnapshotHistory.ClockStarts | fusion_code_modelization/snapshot/manager.py:101-158 | A project without snapshots meets all that the run theorems ask of their start |
| SnapshotHistory.ClockOverRuns | fusion_code_modelization/snapshot/manager.py:101-158 | Over any run in which every snapshot is taken later than those before it, creation times increase along the history |
| SnapshotHistory.RewindIsNthBefore | fusion_code_modelization/snapshot/manager.py:284-292 | In a state whose creation times increase, rewind(n) restores and returns the listed snapshot that exactly n are newer than, and does nothing when there is none |
| SnapshotHistory.RewindOverRuns | fusion_code_modelization/snapshot/manager.py:101-292 | After any run of edits, snapshots, restores, rewinds and deletions in which snapshots are taken in order of time, rewind(n) does so |
| SnapshotHistory.AfterIsRun | fusion_code_modelization/snapshot/manager.py:101-324 | The runs of these theorems: each action acts on what the one before left |
| SnapshotHistory.ActDoes | fusion_code_modelization/snapshot/manager.py:101-158 | In a run an edit gives the project any files, a new snapshot holds the files as they are, and a deletion takes one snapshot |
| SnapshotHistory.SnapshotsStay | fusion_code_modelization/snapshot/manager.py:148-156 | Over any run a stored snapshot stays as it is until it is deleted, and no id is used again |
| SnapshotHistory.TimeTravel | fusion_code_modelization/snapshot/manager.py:101-292 | After any run of edits, snapshots, restores, rewinds and deletions of others, with any failures, restoring a snapshot brings back the files at its creation |
| SnapshotManager.SnapshotManager.RestoreSnapshot | fusion_code_modelization/snapshot/manager.py:160-199 | The method with its loops over the disk computes the restore above and keeps the history |
| SnapshotManager.SnapshotManager.RollbackFrom | fusion_code_modelization/snapshot/manager.py:243-264 | The undo of a restore, as above |
| SnapshotManager.SnapshotManager.CreateSnapshot | fusion_code_modelization/snapshot/manager.py:148-158 | A created snapshot has a new id and holds the files as they are; nothing is created exactly when the file cannot be written, and every other snapshot stays |
| SnapshotManager.SnapshotManager.ListSnapshots | fusion_code_modelization/snapshot/manager.py:266-282 | The loop and the sort compute the listing: every loadable snapshot once, oldest first |
| SnapshotManager.SnapshotManager.RewindTo | fusion_code_modelization/snapshot/manager.py:284-292 | The method computes the rewind above and keeps the history |
| SnapshotManager.SnapshotManager.DeleteSnapshot | fusion_code_modelization/snapshot/manager.py:315-324 | True exactly when there was a file and it was deleted; then it cannot be loaded any more |
| Sessions.ScrubbedIsClean | fusion_code_modelization/session/store.py:31-39 | The message contents that were saved hold no secret, and saving it again changes no message |
| Sessions.CleanPrefixKept | fusion_code_modelization/session/store.py:31-39 | Appending to a saved history and saving it keeps the saved messages as a prefix |
| Sessions.EnteredFrom | fusion_code_modelization/session/state.py:23-47 | From which states each state can be entered: the transition table read backwards |
| SessionRuns.CallIsStep | fusion_code_modelization/session/engine.py:34-215 | Every call of the engine keeps the stored messages of every session as a prefix, keeps final states, stores no secret in the content of a message and brings no used id back: appended messages are scrubbed, and what was scrubbed before stays as it is |
| SessionRuns.SavedIsCleanExactly | fusion_code_modelization/session/store.py:31-38 | What is saved holds no secret in any text if and only if id, name, error, configuration and the roles of the messages hold none: only message contents are scrubbed |
| SessionRuns.KeyInError | fusion_code_modelization/session/engine.py:122-130 | An error with a key in it is stored as it is |
| SessionRuns.ChatIsStored | fusion_code_modelization/session/engine.py:174-215 | A chat stores prompt and answer, scrubbed, behind exactly what was stored; if the client raises it stores nothing |
| SessionRuns.AfterIsRun | fusion_code_modelization/session/engine.py:34-301 | The runs of the run theorem: each call is applied to what the one before left |
| SessionRuns.ClientSeesPrompt | fusion_code_modelization/session/engine.py:198-205 | The client is shown the newest messages, the new prompt last: all of them, or forty if there are more |
| SessionRuns.ChatChangesState | fusion_code_modelization/session/engine.py:174-215 | A chat that is answered or refused leaves the session running, with the error of a refusal; otherwise nothing changes. No other session is touched |
| SessionRuns.CreateMakesSession | fusion_code_modelization/session/engine.py:34-75 | A new session is idle, without messages and error, with the given configuration and name or one made of its id; no other session is touched |
| SessionRuns.MoveChangesState | fusion_code_modelization/session/engine.py:86-148 | A transition that the table allows changes the state, for a failure the error, and nothing else; any other changes nothing |
| SessionRuns.RemoveForgets | fusion_code_modelization/session/engine.py:150-153 | A deletion removes the file, if there is one, and no other |
| SessionRuns.CloneCopies | fusion_code_modelization/session/engine.py:155-172 | A clone is an idle session with the messages and configuration of its source, outside any cluster |
| SessionRuns.DistributeChangesState | fusion_code_modelization/session/engine.py:226-236 | Distribution stores the nodes and the cluster state when there are nodes and the table allows it, and otherwise nothing |
| SessionRuns.MergeChangesState | fusion_code_modelization/session/engine.py:280-301 | A merge of a distributed session completes it if the table allows that, and changes nothing else |
| SessionRuns.HistoryIsAppendOnly | fusion_code_modelization/session/engine.py:34-301 | Over every sequence of engine calls, whatever the clients answer: stored messages are a prefix of the later ones although each save scrubs all, no stored message content holds a secret, completed and failed sessions stay so, and deleted ones never come back |
| Sessions.SessionStore.Load | fusion_code_modelization/session/store.py:41-55 | Loading gives a new session with exactly the stored record, or nothing for a file that is missing or does not parse |
| SessionEngine.SessionEngine.CreateSession | fusion_code_modelization/session/engine.py:34-75 | The method does what the call Create of the run theorem does to files and cache, and returns the new session |
| SessionEngine.SessionEngine.MoveTo | fusion_code_modelization/session/engine.py:86-148 | The same for Move: a transition is stored exactly when the session exists and the table allows it |
| SessionEngine.SessionEngine.Delete | fusion_code_modelization/session/engine.py:150-153 | The same for Remove: the session and its client go; true exactly when there was a file |
| SessionEngine.SessionEngine.Clone | fusion_code_modelization/session/engine.py:155-172 | The same for CloneAs: an idle session under a new id with the configuration and the messages of the source |
| SessionEngine.SessionEngine.Chat | fusion_code_modelization/session/engine.py:174-215 | The same for Chat: only running and idle sessions chat, and what is returned is the client's answer to the last 40 messages, or its error |
| SessionEngine.SessionEngine.CacheClient | fusion_code_modelization/session/engine.py:27-32 | The cache is that of the recency model after one more touch |
| SessionEngine.SessionEngine.Touch | fusion_code_modelization/session/engine.py:184-195 | A cached client moves to the end, a missing one is cached: the recency model after one more touch |
| SessionEngine.SessionEngine.DistributeSession | fusion_code_modelization/session/engine.py:226-236 | The same for Distribute, the part that concerns the session: it succeeds exactly when there are nodes and the table allows it |
| SessionEngine.SessionEngine.MergeCluster | fusion_code_modelization/session/engine.py:280-301 | The same for Merge: a distributed session is saved, completed if the table allows it |
| ClientCache.EvictionKeepsInv | fusion_code_modelization/session/engine.py:30-32 | Whoever is evicted has been overtaken by as many other sessions as the cache holds |
| ClientCache.LruOverRuns | fusion_code_modelization/session/engine.py:27-32 | Over every run at most 32 clients are cached, in order of last touch, and a touched session is cached unless it was deleted since or at least 32 distinct others were touched since |
| ClientCache.CachedExactly | fusion_code_modelization/session/engine.py:27-32 | Over runs without deletions, a session is cached if and only if it was touched and fewer distinct others than the cache holds were touched since |
| AgentLoop.Iteration | fusion_code_modelization/core/agent_loop.py:107-224 | One turn of the loop with its branches: the calls it makes are each due after the one before, none is missing at the end, and step and trace entry follow from them |
| AgentLoop.Verify | fusion_code_modelization/core/agent_loop.py:146-224 | The part after the extraction: second gate, unknown tool, KeyError, other exceptions, pass and retry |
| AgentLoop.AgentLoop.Run | fusion_code_modelization/core/agent_loop.py:94-233 | At most max_iter iterations; each prompt carries the error of the iteration before, and only the last may end the run; result, status, last error, trace and what is written follow from the calls made |
| AgentLoop.PromptReportsError | fusion_code_modelization/core/agent_loop.py:108-224 | Each prompt but the first reports what went wrong in the iteration before: the error of the tool, or its output or "verify_failed" when that is empty, the message of its exception, the reason of the hook that denied, or the error of the model |
| AgentLoop.LastErrorReports | fusion_code_modelization/core/agent_loop.py:225-233 | The last error of a run that is out of iterations reports the same of its last iteration |
| AgentLoop.BudgetIsKept | fusion_code_modelization/core/agent_loop.py:94-107 | A run makes at most max_iter iterations, fewer only if one ends it |
| AgentLoop.FindToolIsFirst | fusion_code_modelization/core/agent_loop.py:76-80 | The tool that is called is the first that has the name |
| AgentLoop.VerifierIs | fusion_code_modelization/core/agent_loop.py:102-103 | The tool that decides is the one that is named, or the first of the tools if none is |
| AgentLoop.EntryDescribes | fusion_code_modelization/core/agent_loop.py:126-222 | What the trace entry of an iteration says: response, output, tool and error as they came up in its calls |
| AgentLoop.IterationIsFixed | fusion_code_modelization/core/agent_loop.py:107-224 | Model, hooks and tools fix the calls of an iteration, and with them its step and entry |
| AgentLoop.RunIsFixed | fusion_code_modelization/core/agent_loop.py:94-233 | Two runs with the same model, hooks, tools and file system make the same calls and have the same result |
| AgentLoop.OneQuestionEach | fusion_code_modelization/core/agent_loop.py:107-224 | An iteration asks the model once, at its start, and nothing follows a tool call |
| AgentLoop.ToolSeesOnlyCleared | fusion_code_modelization/core/agent_loop.py:126-176 | In every run no text reaches the tool unless it was extracted from what POST_LLM let through or put in its place, and PRE_EXEC allowed it |
| AgentLoop.OnlyTheLastDecides | fusion_code_modelization/core/agent_loop.py:171-224 | A tool call passes or raises KeyError in the last iteration or never |
| AgentLoop.OutOfIterations | fusion_code_modelization/core/agent_loop.py:225-233 | A run that ends with max_iter_reached has used all iterations, no tool call and no trace entry in it has passed, and its result is the last text extracted |
| AgentLoop.LastProducedMeaning | fusion_code_modelization/core/agent_loop.py:104-147 | The last output is the text of the last iteration that extracted one, or empty when none did |
| AgentLoop.FailedOnlyWithoutTool | fusion_code_modelization/core/agent_loop.py:171-197 | A run fails if and only if, in its last iteration, a text that the hooks cleared is ready and the deciding tool is missing or raises KeyError |
| AgentLoop.CompletedWithoutTool | fusion_code_modelization/core/agent_loop.py:146-222 | Without a deciding tool a completed run returns the first text let through, and no second gate and no tool is ever called |
| AgentLoop.FileIsCleanExactly | fusion_code_modelization/core/agent_loop.py:82-92 | Run by run, what goes to the trace file holds no secret in any text if and only if nothing is written, or the objective holds none and, should an entry name the deciding tool, neither does that name: only response and output are scrubbed |
| AgentLoop.FileStaysCleanExactly | fusion_code_modelization/core/agent_loop.py:82-92 | All runs with a given objective, deciding tool, trace file and budget, whatever model, hooks, tools and disk do, keep the file free of secrets if and only if there is no trace file or no iteration, or neither the objective nor the name of the deciding tool holds a secret |
| AgentLoop.SecretIsWritten | fusion_code_modelization/core/agent_loop.py:82-92 | For every other input, a run that writes the secret: a model that answers at once and a deciding tool that accepts |
| AgentLoop.KeyInObjective | fusion_code_modelization/core/agent_loop.py:82-92 | For instance, with a key in the objective not every run keeps the file clean |
| AgentLoop.AgentLoop.AppendTrace | fusion_code_modelization/core/agent_loop.py:82-92 | An entry is scrubbed in memory before the file is opened; it stays as it is without a trace file and when the directory cannot be made, and is appended exactly when the file can be written |
| AgentLoop.CompletedIsVerified | fusion_code_modelization/core/agent_loop.py:94-233 | With a deciding tool a run completes if and only if the tool passed in its last iteration; it then returns the text that passed, and only the last entry of its trace passes |
| RateLimiter.RateLimiter.Allow | fusion_code_modelization/server/app.py:79-87 | A call is allowed exactly when fewer than the maximum of that client's calls were allowed in the window ending now, over the whole history and not only what is kept |
| RateLimiter.AllStillKept | fusion_code_modelization/server/app.py:81-87 | Pruning never loses a call that a later decision needs |
| RateLimiter.WindowSafety | fusion_code_modelization/server/app.py:79-87 | Over every run with a clock that does not go back, any half-open interval of the window's length holds at most the maximum of a client's allowed calls |
| RateLimiter.RefusedOnlyWhenFull | fusion_code_modelization/server/app.py:84-85 | A refused call had exactly the maximum of allowed calls in the window that ends with it |
| RateLimiter.NoBurst | fusion_code_modelization/server/app.py:79-87 | In terms of the calls themselves: however calls of a client that were allowed within the length of the window are picked out of a run, they are no more than the maximum |
| RateLimiter.RefusalHasCause | fusion_code_modelization/server/app.py:84-85 | A refused call comes after exactly the maximum of allowed calls of its client, which are given, in the window that ends with it |
| Balancing.LoadIsMean | fusion_code_modelization/loadbalancer/models.py:29-31 | The load lies between the least and the greatest of the three percentages, scaled by the weight |
| Balancing.LoadParts | fusion_code_modelization/loadbalancer/models.py:29-31 | A point more of processor, memory or accelerator adds 0.4, 0.3 or 0.3 times the weight to the load, which is zero for an idle node |
| Balancing.CapacityMeaning | fusion_code_modelization/loadbalancer/models.py:33-41 | The free share lies between none and all, is the share of free task slots, and a node is overloaded exactly when none is free or its load is above 80 |
| Balancing.EligibleMeaning | fusion_code_modelization/loadbalancer/balancer.py:47-49 | Eligible are the nodes that are not overloaded, or all when all are |
| Balancing.FirstBestMeaning | fusion_code_modelization/loadbalancer/strategy.py:32-65 | The choice scores highest and nothing before it scores as high |
| Balancing.ChosenIsBest | fusion_code_modelization/loadbalancer/strategy.py:32-65 | Least-loaded selection takes the first of the eligible nodes with the least load; weighted selection the first with the greatest free share times weight, or with the greatest weight if no node is free |
| Balancing.ChoiceIsRight | fusion_code_modelization/loadbalancer/balancer.py:36-54 | The node chosen in every mode and for every strategy object: in turn among the eligible, the least loaded, the worthiest, or the first of that name that the session had if it is still there and not overloaded, else the least loaded |
| Balancing.ChoiceIsRemembered | fusion_code_modelization/loadbalancer/balancer.py:42-54 | The index moves on in round-robin mode only; affinity remembers the chosen node of a named session |
| Balancing.CycleGoesRound | fusion_code_modelization/loadbalancer/strategy.py:18-29 | Once the nodes have changed and while they stay the same, a cycle gives the metrics it started with, round and round |
| Balancing.ChoiceIsBalanced | fusion_code_modelization/loadbalancer/balancer.py:36-54 | In all four modes, unless a cycle serves another mode, an overloaded node is chosen only if all are overloaded |
| Balancing.BalancedExactly | fusion_code_modelization/loadbalancer/balancer.py:42-54 | For all metrics, indexes and sessions the choice is so balanced if and only if the mode is round robin or the strategy object is not a cycle |
| Balancing.CycleIgnoresLoad | fusion_code_modelization/loadbalancer/strategy.py:18-29 | For every state of a cycle: used in another mode, it picks an overloaded node while another is idle |
| Balancing.SessionsStick | fusion_code_modelization/loadbalancer/strategy.py:77-91 | A session that was placed by affinity stays on its node while that node is present and not overloaded |
| Balancing.ServesInTurn | fusion_code_modelization/loadbalancer/balancer.py:46-52 | With unchanged metrics, selections in round-robin mode take the eligible nodes in turn from the index on |
| Balancing.RoundRobinIsFair | fusion_code_modelization/loadbalancer/balancer.py:46-52 | Of n selections in a row from any index, each of the k eligible nodes gets n / k, rounded down or up, and no other node any |
| LoadBalancer.BusyMeansNoAlternative | fusion_code_modelization/loadbalancer/balancer.py:36-62 | A decision for a busy node lists no alternatives |
| LoadBalancer.UpdatedMeaning | fusion_code_modelization/loadbalancer/balancer.py:28-31 | The last metric given for a node counts; other nodes keep theirs |
| LoadBalancer.RunsAreBalancedExactly | fusion_code_modelization/loadbalancer/balancer.py:18-73 | From a given configuration and saved state: over all runs of updates and selections every decision is balanced if and only if there is no saved state, the saved mode is round robin or the given mode is not |
| LoadBalancer.RestartPicksBusy | fusion_code_modelization/loadbalancer/balancer.py:18-73 | A balancer made for round robin that restarts from a state of another mode sends the first session to a busy node while another is idle, whatever nodes the state holds |
| LoadBalancer.RunsAreFair | fusion_code_modelization/loadbalancer/balancer.py:46-52 | Of n selections in a row by a balancer in round-robin mode, from whatever state it was left or restarted in, each of the k eligible nodes gets n / k, rounded down or up, and no other node any |
| LoadBalancer.ModesAreServed | fusion_code_modelization/loadbalancer/balancer.py:18-54 | Over every run of a balancer that is not restarted under another mode each session gets the node that the configured mode stands for |
| LoadBalancer.OthersPicks | fusion_code_modelization/loadbalancer/balancer.py:59 | The alternatives are exactly the other nodes that are not overloaded, in their order |
| LoadBalancer.KindStays | fusion_code_modelization/loadbalancer/balancer.py:36-54 | No call changes the mode or the kind of the strategy object |
| LoadBalancer.LoadBalancer.constructor | fusion_code_modelization/loadbalancer/balancer.py:18-26 | The strategy object belongs to the given configuration, while mode, metrics and index come from the saved state |
| LoadBalancer.LoadBalancer.UpdateMetrics | fusion_code_modelization/loadbalancer/balancer.py:28-31 | The loop does what an update of the run theorem does |
| LoadBalancer.LoadBalancer.SelectNode | fusion_code_modelization/loadbalancer/balancer.py:36-73 | The method does what a selection of the run theorem does; without nodes nothing happens, else the decision names the right node for the mode, the other nodes that are not overloaded, in their order, and a wait of the cooldown exactly if the node is busy; the saved state is the one a restart continues from |
| AuditFiles.ShiftMovesUp | fusion_code_modelization/audit/store.py:108-114 | The descending loop moves every file up by one slot; the last slot is overwritten only when the slot before it is taken |
| AuditFiles.AppendIsSuffix | fusion_code_modelization/audit/store.py:24-29 | One append puts its entry last and drops at most the oldest file, and that only when a rotation finds both last slots taken |
| AuditFiles.HistoryIsConserved | fusion_code_modelization/audit/store.py:24-48 | Over any run of appends, from any directory, the oldest-to-newest concatenation is everything there ever was without a prefix |
| AuditFiles.FilesStayContiguous | fusion_code_modelization/audit/store.py:103-117 | From an empty directory the rotated files are those numbered 1 to n with n at most ten, and nothing is lost if and only if there were at most ten rotations |
| AuditFiles.SmallHistoryIsKept | fusion_code_modelization/audit/store.py:103-117 | From an empty directory, appends of fewer bytes than eleven full files hold lose nothing |
| AuditFiles.TwelfthFileIsLost | fusion_code_modelization/audit/store.py:103-117 | Twelve or more entries that each fill a file lose the first |
| AuditFiles.RecentHistoryIsKept | fusion_code_modelization/audit/store.py:103-117 | Once anything has been lost, at least ten full files of the newest entries are still there |
| AuditFiles.ReadingIsComplete | fusion_code_modelization/audit/store.py:31-48 | Reading by file name finds exactly the entries on disk, as a multiset |
| AuditFiles.ReadOrderIsByName | fusion_code_modelization/audit/store.py:31-34 | Reading goes through the files in the descending order of their names, each once: the live file first, the tenth before the first |
| AuditFiles.EverythingInOrder | fusion_code_modelization/audit/store.py:31-48 | What is read are the entries of the live file, then those of slots 9 down to 2, 10 and 1 |
| AuditFiles.CleanupIsExact | fusion_code_modelization/audit/store.py:119-143 | When nothing fails exactly the entries at or after the cutoff remain, each as often as before; the returned number is how many went, and with none to go nothing is rewritten |
| AuditFiles.CleanupNeverLosesRecent | fusion_code_modelization/audit/store.py:131-147 | Wherever the rewrite fails, no entry from the cutoff on is lost and none appears from nowhere |
| AuditRuns.EntriesAreConserved | fusion_code_modelization/audit/store.py:24-147 | Over any mix of appends and cleanups in which no rewrite fails: copies on disk, copies in files dropped by rotation and copies before a cutoff are together those there were and those appended |
| AuditRuns.NoEntryIsLost | fusion_code_modelization/audit/store.py:24-147 | Wherever rewrites fail in such a mix, no other copy is lost and no entry is on disk that was neither there nor appended |
| AuditRuns.EveryEndingHappens | fusion_code_modelization/audit/store.py:131-147 | The runs include rewrites that end before the live file is replaced and after each of the unlinks |
| AuditStore.AuditStore.Append | fusion_code_modelization/audit/store.py:24-29 | The chronicle grows by the entry at its end, without what the rotation dropped |
| AuditStore.AuditStore.RotateIfNeeded | fusion_code_modelization/audit/store.py:103-117 | The loop of renames computes the rotation |
| AuditStore.AuditStore.ReadAll | fusion_code_modelization/audit/store.py:31-48 | With a limit, stopping early still gives exactly the first entries of the whole, in that order |
| AuditStore.AuditStore.Cleanup | fusion_code_modelization/audit/store.py:119-129 | The method computes the cleanup above |
| AuditStore.AuditStore.Rewrite | fusion_code_modelization/audit/store.py:131-147 | The live file is replaced first, then rotated files are unlinked up to where a failure strikes |
| OfflineCache.EvictMeaning | fusion_code_modelization/offline/cache.py:129-138 | After k evictions exactly the entries outside the first k remain, unchanged, and sizes left and evicted add up |
| OfflineCache.EvictionIsMinimal | fusion_code_modelization/offline/cache.py:123-141 | For entries under their own keys, what is evicted is the shortest oldest-first prefix that brings the total within the limit, or everything; whatever stays is at least as young |
| Sorting.SortIsStable | fusion_code_modelization/offline/cache.py:129 | Sorting by age keeps the order of entries that are of one age |
| OfflineCache.ReloadIsExact | fusion_code_modelization/offline/cache.py:143-159 | Reading a saved index back gives the same entries in the same order |
| OfflineCache.KeysAreApart | fusion_code_modelization/offline/cache.py:60-88 | Models and plugins never share a key, and neither do two resources of one kind |
| OfflineCache.OfflineCache.constructor | fusion_code_modelization/offline/cache.py:34-43 | Opening a cache loads any saved index, entry by entry |
| OfflineCache.CleanupIsRight | fusion_code_modelization/offline/cache.py:123-141 | When every entry is under its own key, a cleanup evicts the fewest oldest entries that suffice, and freed and remaining sizes are reported exactly and add up to the total before |
| OfflineCache.CleanupIsTurns | fusion_code_modelization/offline/cache.py:123-141 | For any index, well filed or not, and any limit, a cleanup looks at oldest entries up to the first turn at which its running total is within the limit, and has removed exactly their keys |
| OfflineCache.OldestGoExactly | fusion_code_modelization/offline/cache.py:129-138 | However far eviction goes, exactly the oldest entries are gone, if and only if every entry of the index is under its own key |
| OfflineCache.MisfiledIsMiscounted | fusion_code_modelization/offline/cache.py:130-138 | An index that shows it, with an entry under another key: at limit 5 the younger and larger entry goes, and the total reported is 5 where 1 is left |
| OfflineCache.OfflineCache.CleanupCache | fusion_code_modelization/offline/cache.py:123-141 | The loop does this for any entries; freed and reported total add up to the total before, and the index reloads to what is left |
| OfflineCache.OfflineCache.Get | fusion_code_modelization/offline/cache.py:87-109 | A hit exactly for an entry that is present, on disk and not older than its time to live; any other lookup drops the entry and saves the index; every lookup counts once |
| OfflineCache.OfflineCache.CacheResource | fusion_code_modelization/offline/cache.py:60-62 | A resource is stored under its key with its size and time, and the saved index reloads to the same entries |

## Left out

- HTTP servers and clients, FastAPI routes, the command line, logging, progress callbacks and time stamps that nothing decides on. The language-model client, the tools, the hooks' guard service and the clock are parameters.
- Prompt texts are the values they are made of (goal, task, dependency outputs), not the rendered strings; the merge prompt likewise.
- WorkflowExecutor.WorkflowExecutor.Execute: requires max_parallel at least 1, because a semaphore without permits never lets a task in; a client that raises is one of its responses, so the branch for exceptions that reach gather (executor.py lines 130-132), which execute_subtask leaves no way to reach, is not there.
- WorkflowRun.RunsAgree: assumes a client whose answer depends on the prompt alone; for any other client the results are still the answers to the same prompts, call by call.
- WorkflowGraph.CycleNeverRuns: needs unique ids, as the other statements about single tasks do; with a repeated id another task of that id can run and count as the dependency.
- TraceTracker.TraceTracker.Trace: trace_forward and trace_backward are one method with a direction; metadata of nodes and edges is left out.
- TraceStore.TraceStore.constructor: rotation of the trace logs is left out, because a reload reads the live files only; searches and reports over the store are left out, because they filter lists.
- Snapshots.RestoreIsAllOrNothing: the project is a flat map of collected text files; symbolic links, ignored directories, large or undecodable files, path checks, deltas between snapshots, compression and automatic cleanup are not part of it. Files are restored from full contents, which every snapshot made by create_snapshot has.
- SnapshotHistory.RewindOverRuns: for n at least 0; a negative number of steps would index from the other end.
- Unpredictable orders of directories and dictionaries are arbitrary functions of the operation number and the set that is listed.
- SessionRuns.HistoryIsAppendOnly: engine calls are atomic; two chats on one session that interleave at the await can overwrite each other's messages. Ids of new sessions are ones that were never used. An id that does not pass the validation of session ids is never the key of a file. Session files of the engine that parse are ones the store wrote.
- SessionEngine.SessionEngine.MoveTo: stands for the seven methods that differ in their target only; the target is never Idle, because no method asks for it.
- SessionEngine.SessionEngine.DistributeSession: dispatching to nodes and collecting their outputs is left out, because the session does not depend on them; the cluster scheduler, agent communication and plugins are left out, because they only update status fields.
- Hooks.HookRegistry.Default: the pattern of destructive commands and the guard's verdict are parameters; the reason text of a scrub does not carry the number of replacements.
- SafeWriter.SafeWriter.WriteText: resolving a path inside the project comes before it and is not part of it; write_bytes, which does not pass its content to the hooks, is left out.
- AgentLoop.AgentLoop.Run: exceptions that a client or a callback raises out of the loop are left out; an entry whose JSON line is cut off counts as not written.
- Balancing.ChoiceIsBalanced: loads are real numbers, without rounding. The threshold is the constant 80 that the code uses; the field overload_threshold of the configuration is never read by it.
- Balancing.RoundRobinIsFair: is about unchanged metrics. Rebalancing advice, cluster overview and capacity prediction are left out, because they compute reports that nothing acts on.
- AuditStore.AuditStore.ReadAll: the limit is not negative and lines are well formed; searching and statistics, which filter and count what it reads, are left out. Entries come in the order of the file names, in which slot 10 stands between slots 2 and 1, so reading is stated on multisets.
- AuditFiles.CleanupIsExact: time stamps are numbers; the comparison of the original is that of ISO strings.
- OfflineCache.OfflineCache.constructor: an index that does not parse, or lacks fields, is not modelled; sizes are real numbers.
- LoadBalancer.LoadBalancer.SelectNode: the strategy objects are values inside the balancer, because no one else refers to them; random decision ids and time stamps are left out.
- Benchmarks, decomposition by the model, scoring, sandboxing, memory, document and pull-request generation are left out: they count, build prompts or check path strings, and keep no state over calls.
