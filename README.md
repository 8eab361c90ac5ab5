# otter step runner — a Dafny model

This project models, in Dafny, the sequential bookkeeping at the heart of
otter, the Open Targets pipeline runner. It also models the string, path and
storage rules that otter's tasks and storage layer depend on.

**Step runner.** A *step* is a list of task *specs*. The *coordinator* works
as follows:

- it builds every spec whose requirements are DONE into a *task*;
- it hands the task to workers through a task queue;
- it takes finished tasks back from a result queue;
- it advances each returned task through its states (PENDING_RUN, RUNNING,
  PENDING_VALIDATION, VALIDATING, WAITING_FOR_SUBTASKS, DONE);
- it adds the specs a task generates as new work and tracks them as that
  task's subtasks;
- it completes parents whose subtasks are all DONE.

Each finished task's manifest is upserted into the step's manifest.

**Manifests.** The *manifest* records the result of every step. Its root
result rolls up as follows:

- FAILURE if any step failed or aborted;
- otherwise SUCCESS if every step succeeded;
- otherwise PENDING.

The manifest is written with an optimistic read–modify–write loop over a
store with revisions.

**Storage.** *Storage handles* resolve a location against the release URI
or the work path and pick a backend by protocol. The backends are a local
filesystem and Google Cloud Storage, each in a synchronous and an
asynchronous variant.

**Tasks.** The tasks modelled are:

- `explode_glob`, which turns every file matching a glob into subtasks;
- `find_latest`, which picks the most recently modified file;
- `copy_many`, which copies a list of files with bounded retries on timeout.

The validators `v`, `exists` and `size` decide whether a task's output is
acceptable.

**How the model is written.**

- Stateful parts are Dafny classes whose methods are proved against
  specification functions:
  - the coordinator, the step, the manifest, the manifest manager, the
    storage registry's cache, the filesystem store and the `explode_glob`
    task.
- Pure rules are functions with lemmas.
- Every `while True` loop driven by the environment is given the
  environment's behaviour as an explicit trace. These are:
  - the filesystem and Google re-read loops;
  - the manifest's compare-and-swap loop;
  - the remote manifest upload loop;
  - the coordinator's polling loop.
- Where the trace runs out with the loop still going, the model reports
  that (`None`) rather than inventing an end.

**Behaviour of the code that the model keeps:**

- The coordinator's loop does not re-raise an exception. The exception's
  text becomes the failure reason, and the workers are killed
  (src/otter/step/coordinator.py:267-270).
- The coordinator moves tasks only through the states named above; no
  FAILED or SKIPPED state occurs (src/otter/step/coordinator.py:65, 161-169
  and 190). The task state enum itself is not part of this model.
- A failed task stops the run with an exception from `_process_done_tasks`
  (src/otter/step/coordinator.py:158-166). Its ancestors are not marked.

## Model

| member | source | states |
|---|---|---|
| Coordinator.Select | src/otter/step/coordinator.py:71-84 | every spec selected as ready is ready and every spec selected as blocked is blocked; the selection is no longer than the specs scanned |
| Coordinator.SelectPartition | src/otter/step/coordinator.py:71-84 | the ready and the blocked specs together are exactly the remaining specs, as a multiset |
| Coordinator.SelectCount | src/otter/step/coordinator.py:71-84 | the numbers of ready and blocked specs add up to the number of remaining specs |
| Coordinator.SelectAppend | src/otter/step/coordinator.py:71-84 | the split keeps the original relative order: selecting from a concatenation is the concatenation of the selections |
| Coordinator.StepResult | src/otter/step/coordinator.py:120-128 | PENDING iff the step is incomplete; FAILURE iff the step is complete and some task manifest failed; never ABORTED |
| Coordinator.CompleteBuildsNothing | src/otter/step/coordinator.py:108-118 | while tasks plus remaining specs equal the spec count, a complete step has no remaining and no ready spec, so processing the ready specs builds, stores and enqueues nothing and succeeds |
| Coordinator.TrackedGet | src/otter/step/coordinator.py:141-149 | tracking a task's new specs appends their names, in order, to that parent's subtask list only; every other entry is unchanged and the keys stay unique |
| Coordinator.PassCompletesTracked | src/otter/step/coordinator.py:198-211 | one completion pass completes only tracked parents, each at most once |
| Coordinator.PassAdvancesCompleted | src/otter/step/coordinator.py:198-207 | a pass keeps the task names; each completed parent was WAITING_FOR_SUBTASKS and advanced exactly one state; every other task is untouched |
| Coordinator.PassNothingFinished | src/otter/step/coordinator.py:198-214 | a pass that completes nothing leaves the task table unchanged and found no tracked parent finished, so the recursion stops there |
| Coordinator.Executed | src/otter/step/worker.py:74-99 | workers return one task for each task they took off the queue, in order: the i-th returned task is the i-th taken task advanced one state, marked to abort with its attached handler, and executed |
| Coordinator.DonePassOutcome | src/otter/step/coordinator.py:155-178 | processing the drained tasks succeeds iff none of them has a FAILURE manifest |
| Coordinator.DonePassFirstFailure | src/otter/step/coordinator.py:155-178 | a failed pass raises the error of the first task with a FAILURE manifest (every earlier one did not fail), which is a run, validation or step failure |
| Coordinator.DonePassKeepsUnique | src/otter/step/coordinator.py:141-178 | processing the drained tasks keeps the subtask table free of duplicate parents |
| Coordinator.DonePassCounted | src/otter/step/coordinator.py:141-178 | when every drained task is a task of the table, processing them keeps the table's names, and "built + remaining = spec count" still holds afterwards |
| Coordinator.DonePassQueue | src/otter/step/coordinator.py:163-170 | a successful pass puts back on the task queue exactly the drained tasks whose new state is PENDING_VALIDATION, advanced, in drain order |
| Coordinator.DonePassGenerated | src/otter/step/coordinator.py:141-170 | a successful pass adds exactly the specs generated by the tasks that now await validation to the remaining specs, in order, and their number to the spec count |
| Coordinator.DonePassKeepsOthers | src/otter/step/coordinator.py:155-178 | after a successful pass a task that was not drained keeps its entry in the table unchanged |
| Coordinator.DonePassAdvanced | src/otter/step/coordinator.py:172-176 | after a successful pass a drained task that is not drained again later holds its advanced copy in the table |
| Coordinator.DonePassStep | src/otter/step/coordinator.py:155-178 | the pass from one drained task on is that task's processing (a failure upserts its manifest and stops with its error) followed by the pass from the next task |
| Coordinator.ReadyPassErrors | src/otter/step/coordinator.py:86-100 | processing ready specs fails only with a duplicate or a build error, and leaves the remaining specs, the spec count and the subtask table alone |
| Coordinator.ReadyPassFresh | src/otter/step/coordinator.py:86-100 | a successful pass built every ready spec, each under a name that was not in the table, and no two ready specs share a name |
| Coordinator.ReadyPassTable | src/otter/step/coordinator.py:86-100 | a successful pass keeps every existing task, stores each ready spec's built task under the spec's name, and grows the table by the number of ready specs |
| Coordinator.ReadyPassQueue | src/otter/step/coordinator.py:97-106 | a successful pass enqueues exactly the built tasks, in the order of the ready specs, and upserts their manifests into the step in that order |
| Coordinator.Coordinator.constructor | src/otter/step/coordinator.py:34-53 | the spec count is the number of the step's specs, all of them remain to be built, and both queues and the subtask table are empty |
| Coordinator.Coordinator.IsSpecReady | src/otter/step/coordinator.py:55-69 | the early-exit scan answers whether every required name is a built task that is DONE (a spec without requirements is ready) |
| Coordinator.Coordinator.GetReadySpecs | src/otter/step/coordinator.py:71-84 | returns the ready specs, and leaves only the blocked ones as remaining, both in the original order |
| Coordinator.Coordinator.BuildSpecIntoTask | src/otter/step/coordinator.py:86-100 | a duplicate name raises TaskDuplicateError and leaves the task table and manifest unchanged; another build failure raises TaskBuildError; success stores the task under its spec name and upserts its manifest |
| Coordinator.Coordinator.EnqueueTasks | src/otter/step/coordinator.py:102-106 | the tasks are appended to the task queue in order |
| Coordinator.Coordinator.IsStepComplete | src/otter/step/coordinator.py:108-118 | complete iff there is a task for every counted spec and every task is DONE |
| Coordinator.Coordinator.GetTaskResults | src/otter/step/coordinator.py:130-139 | drains the result queue and returns its tasks in arrival order |
| Coordinator.Coordinator.AddNewSpecsFromTask | src/otter/step/coordinator.py:141-149 | appends the task's specs to the remaining specs, raises the spec count by their number, tracks their names under the parent, and keeps "built + remaining = spec count" |
| Coordinator.Coordinator.ProcessDoneTask | src/otter/step/coordinator.py:157-178 | a FAILURE manifest is upserted, nothing else changes, and the error its state selects is raised (RUNNING → TaskRunError, VALIDATING → TaskValidationError, otherwise StepFailedError); otherwise the bookkeeping becomes `DoneStep`: the task advances one state, is re-enqueued and its new specs added, counted and tracked iff the new state is PENDING_VALIDATION, is upserted iff it is DONE, and replaces its entry in the table |
| Coordinator.Coordinator.ProcessDoneTasks | src/otter/step/coordinator.py:155-178 | drains the result queue; the new table, manifest, remaining specs, count, subtask table and task queue, and the outcome, are those of processing the drained tasks in order up to the first failure (`DonePass`); it succeeds iff no returned task failed, and otherwise raises the error of the first failed task; with every drained task in the table, success keeps "built + remaining = spec count" |
| Coordinator.Coordinator.ProcessReadySpecs | src/otter/step/coordinator.py:180-185 | leaves only the blocked specs remaining; the new table, manifest and task queue, and the outcome, are those of building the ready specs in order up to the first error (`ReadyPass`); success keeps "built + remaining = spec count"; errors are build or duplicate errors |
| Coordinator.Coordinator.IsTaskFinishedWaitingForSubtasks | src/otter/step/coordinator.py:187-196 | true iff the parent is a built task that is WAITING_FOR_SUBTASKS and every listed subtask is a built task that is DONE |
| Coordinator.Coordinator.CompleteIfFinished | src/otter/step/coordinator.py:202-208 | a finished parent advances exactly one state and its manifest is upserted into the step; otherwise neither the task table nor the step manifest changes |
| Coordinator.Coordinator.CompletionPass | src/otter/step/coordinator.py:200-208 | the pass computes the specification pass: completed names are tracked and distinct, each was WAITING_FOR_SUBTASKS and advanced once, and nothing else changed |
| Coordinator.Coordinator.Untrack | src/otter/step/coordinator.py:209-211 | exactly the completed names leave the subtask table, which strictly shrinks when any were completed |
| Coordinator.Coordinator.CompleteTasksWaitingForSubtasks | src/otter/step/coordinator.py:198-214 | the recursion terminates at a fixpoint where no tracked parent is finished; every completed parent was tracked, was WAITING_FOR_SUBTASKS, advanced once and left the table; every other task is unchanged |
| Coordinator.Coordinator.RunWorkers | src/otter/step/worker.py:74-99 | the first tasks of the queue, as many as the workers took, are executed and put on the result queue in order; the rest stay queued |
| Coordinator.Coordinator.Run | src/otter/step/coordinator.py:254-276 | the loop exits normally only when the step is complete; a caught error is recorded as the failure reason and kills the workers; a normal exit stops them; the final `finish` call carries the step result and raises TypeError against `finish(tasks)` |
| StepModel.FindTask | src/otter/step/model.py:53-55 | finds the first task manifest with the given name, or reports that none has it |
| StepModel.UpsertPresent | src/otter/step/model.py:53-60 | upserting under a listed name replaces that entry in place; the length and every other entry are unchanged; artifacts are extended by the task's artifacts |
| StepModel.UpsertAbsent | src/otter/step/model.py:61-63 | upserting under an unlisted name appends the manifest, so the length grows by one, and adds no artifacts |
| StepModel.UpsertKeepsUnique | src/otter/step/model.py:49-63 | distinct task-manifest names stay distinct after an upsert |
| StepModel.FinishResult | src/otter/step/model.py:42-47 | SUCCESS iff every task manifest is SUCCESS (also with none), FAILURE otherwise |
| StepModel.FinishAgainstRollup | src/otter/step/model.py:42-47 | the step rule and the manifest roll-up agree on SUCCESS; where the roll-up says PENDING the step rule says FAILURE |
| StepModel.Step.constructor | src/otter/step/model.py:19-31 | a new step has a fresh PENDING manifest and no tasks |
| StepModel.Step.UpsertTaskManifest | src/otter/step/model.py:49-63 | the index scan leaves the manifest that the upsert rule specifies |
| StepModel.Step.Finish | src/otter/step/model.py:38-47 | only the result changes, to the finish rule applied to the task manifests |
| Worker.ExecuteTask | src/otter/step/worker.py:74-99 | the task advances one state and gets the abort event before anything else; then either `abort` alone is called (event set) or the execution method alone is called once, with the same result for coroutine and plain methods; that task is returned |
| TaskModel.Names | src/otter/step/coordinator.py:147 | the names of the specs, in order |
| ManifestModel.StepKeyInjective | src/otter/manifest/model.py:139 | for one runner, distinct step names give distinct keys |
| ManifestModel.Results | src/otter/manifest/model.py:145 | the results of the step entries, in order |
| ManifestModel.Rollup | src/otter/manifest/model.py:143-154 | FAILURE iff some step is FAILURE or ABORTED; SUCCESS iff every step is SUCCESS (so also with no steps); PENDING otherwise; never ABORTED |
| ManifestModel.RollupOrderFree | src/otter/manifest/model.py:143-154 | the roll-up does not depend on the order of the steps |
| ManifestModel.EmptyOf | src/otter/manifest/model.py:135-141 | the empty manifest's root result is PENDING |
| ManifestModel.EmptyOfUnique | src/otter/manifest/model.py:135-141 | the empty manifest has one entry per key |
| ManifestModel.EmptyOfEntries | src/otter/manifest/model.py:135-141 | every configured step has a fresh PENDING entry under `runner_name + '_' + step` |
| ManifestModel.EmptyOfOnlyConfigured | src/otter/manifest/model.py:135-141 | every key of the empty manifest belongs to a configured step |
| ManifestModel.CreateEmpty | src/otter/manifest/model.py:135-141 | the loop builds exactly the empty manifest: PENDING, unique keys, one fresh entry per configured step |
| ManifestModel.WithStep | src/otter/manifest/model.py:206-212 | after the update the step's key holds the given step manifest, every other key is unchanged, the keys stay unique, and the root result is the roll-up of the steps |
| ManifestModel.Manifest.constructor | src/otter/manifest/model.py:129-133 | the manifest writer keeps the runner name, configured steps and release URI |
| ManifestModel.Manifest.UpdateRound | src/otter/manifest/model.py:199-222 | a round reads the manifest and its revision, puts the step in and writes it back on that revision; a successful round's base is the manifest parsed from the content it read; a concurrent writer makes the write fail and the round repeats (`None`); a deletion between the read and the write ends the round with ManifestError; otherwise it fails only with ManifestError (or the directory error); no other file is touched |
| ManifestModel.Manifest.Update | src/otter/manifest/model.py:164-222 | success leaves the stored manifest equal to the one read with the step put in and the result recalculated; the one read is the stored manifest on a first-round success and the content the last concurrent writer left after a retry; with no manifest a fresh one is written without retries; only a concurrent writer causes another round, and a success never follows a deletion; failures are ManifestError; no other file is touched |
| ManifestManager.LoadLocal | src/otter/manifest/manifest_manager.py:58-69 | a missing local file gives no manifest; a present one is validated; a read or validation failure exits |
| ManifestManager.FirstFound | src/otter/manifest/manifest_manager.py:40 | the remote manifest if there is one, else the local one, else the freshly created one, in that order; an exit from an earlier source stops the search |
| ManifestManager.RefreshedMergedKeepsRelease | src/otter/manifest/manifest_manager.py:93-96 | after the corrected refresh the relevant step is the one put in, and every other step is as the release holds it |
| ManifestManager.RefreshLosesOtherRunnersStep | src/otter/manifest/manifest_manager.py:93-96 | as written, a step another runner saved to the release is missing from the refreshed manifest, which the corrected refresh keeps |
| ManifestManager.ManifestManager.constructor | src/otter/manifest/manifest_manager.py:28-39 | the fields are set, the revision is 0, and loading is left to `Initialize` |
| ManifestManager.ManifestManager.ManifestStepName | src/otter/manifest/manifest_manager.py:151-161 | the key is `runner_name + '_' + name`, whether given a name or a step |
| ManifestManager.ManifestManager.ManifestStepNameOfStep | src/otter/manifest/manifest_manager.py:151-161 | a step and its name give the same key, and distinct names give distinct keys |
| ManifestManager.ManifestManager.RemoteView | src/otter/manifest/manifest_manager.py:42-56 | no release URI or no remote object gives no manifest; failures are EIO (unreadable) or EINVAL (invalid) exits |
| ManifestManager.ManifestManager.LoadRemote | src/otter/manifest/manifest_manager.py:42-56 | returns what the remote view gives and takes the downloaded revision when a download happened |
| ManifestManager.ManifestManager.CreateEmptyManifest | src/otter/manifest/manifest_manager.py:71-77 | one fresh PENDING entry per configured step under its manifest step name, with unique keys |
| ManifestManager.ManifestManager.Initialize | src/otter/manifest/manifest_manager.py:40 | the manifest is the first one found from remote, local, empty, in that order, and an exit on the way is passed on |
| ManifestManager.ManifestManager.CheckSteps | src/otter/manifest/manifest_manager.py:134-142 | only the root result changes, to the roll-up of the step results |
| ManifestManager.ManifestManager.UpdateStep | src/otter/manifest/manifest_manager.py:144-149 | the relevant step becomes the given step, and its manifest is put under the step's key with the root result recomputed |
| ManifestManager.ManifestManager.SaveLocal | src/otter/manifest/manifest_manager.py:119-132 | the local file becomes the serialized manifest; an OSError or timeout exits with SystemExit carrying its errno, and one raised before the write leaves the local file as it was |
| ManifestManager.ManifestManager.RefreshFromRemote | src/otter/manifest/manifest_manager.py:93-96 | (corrected) the manifest becomes the reloaded release manifest with the relevant step put in; it is saved locally; the revision follows the remote; failures are EIO/EINVAL exits |
| ManifestManager.ManifestManager.SaveRemote | src/otter/manifest/manifest_manager.py:98-117 | without a release URI nothing happens; a completed upload leaves the remote holding the local file's content; a generation mismatch refreshes and retries; a storage failure exits with EIO |
| ManifestManager.ManifestManager.Complete | src/otter/manifest/manifest_manager.py:163-189 | the relevant step becomes the given step, and `complete` returns that step manifest's result unless saving exits |
| Filesystem.TextError | src/otter/storage/synchronous/filesystem.py:85-94 | a decoding failure of `read_text` becomes a StorageError; successes are kept |
| Filesystem.FilesystemStorage.constructor | src/otter/storage/synchronous/filesystem.py:20-25 | the store starts with the given files |
| Filesystem.FilesystemStorage.Stat | src/otter/storage/synchronous/filesystem.py:27-39 | a missing path is a NotFoundError naming it; a present path reports its kind, and its modification time as its revision |
| Filesystem.FilesystemStorage.Read | src/otter/storage/synchronous/filesystem.py:57-76 | returns only content read between two equal modification times, re-reading while the file is rewritten underneath; with no interference it is the plain read and changes nothing; no other file is touched |
| Filesystem.FilesystemStorage.ReadText | src/otter/storage/synchronous/filesystem.py:85-94 | returned text decodes and a decoding failure is a StorageError |
| Filesystem.FilesystemStorage.Write | src/otter/storage/synchronous/filesystem.py:96-122 | compare-and-swap: an expected revision on a missing file is NotFoundError; a mismatched one is PreconditionFailedError and leaves the file alone; a match, or no expected revision, replaces the content and returns the new revision |
| Filesystem.FilesystemStorage.CopyWithin | src/otter/storage/synchronous/filesystem.py:138-159 | a missing source is NotFoundError and a non-regular one ValueError, both before the destination is touched; otherwise the destination becomes the source's content |
| Util.SplitGlob | src/otter/util/util.py:4-11 | the scanning loop returns exactly the specified split |
| Util.SplitGlobConcat | src/otter/util/util.py:9 | `prefix + glob == s` for every input: stripping '/' after a metacharacter removes nothing |
| Util.SplitGlobAtFirstMeta | src/otter/util/util.py:6-11 | the prefix holds no split point; a non-empty glob part starts at the first unescaped metacharacter; with none the result is `(s, '')` |
| Util.EscapedMetaNeverSplits | src/otter/util/util.py:8 | a metacharacter preceded by a backslash never ends the prefix |
| ExplodeGlob.StripBase | src/otter/tasks/explode_glob.py:122 | the base and the slashes after it are removed |
| ExplodeGlob.Relativize | src/otter/tasks/explode_glob.py:121-126 | a matched path loses the release URI if it starts with it, else the work path if it starts with that, together with the following slashes; otherwise it is unchanged |
| ExplodeGlob.RelativePath | src/otter/tasks/explode_glob.py:128 | the relative path is a suffix of the URI that does not start with '/' |
| ExplodeGlob.MatchPrefix | src/otter/tasks/explode_glob.py:129 | the match prefix never ends with '/' |
| ExplodeGlob.SplitPath | src/otter/tasks/explode_glob.py:130 | the file name holds no '/'; `match_path + '/' + filename` is the relative path when that holds a '/', else `match_path` is empty |
| ExplodeGlob.SplitName | src/otter/tasks/explode_glob.py:131-133 | the extension holds no '.'; with a '.' after index 0, `stem + '.' + ext` is the file name; with none, the stem is the file name and the extension empty |
| ExplodeGlob.DecomposeShape | src/otter/tasks/explode_glob.py:121-133 | a decomposed file's prefix never ends with '/', and its stem and extension hold no '/' (the extension no '.') |
| ExplodeGlob.SplitNameRebuilds | src/otter/tasks/explode_glob.py:131-133 | stem and extension rebuild the file name, or the stem is the name or the name less a trailing '.' |
| ExplodeGlob.DecomposeRebuilds | src/otter/tasks/explode_glob.py:128-133 | match path, file name, stem and extension put back together give the relative path |
| ExplodeGlob.PrefixThenRelative | src/otter/tasks/explode_glob.py:128-129 | the match prefix, some slashes and the relative path make up the URI |
| ExplodeGlob.PrefixBeforeSuffix | src/otter/tasks/explode_glob.py:129 | the match prefix is what precedes the relative path, less the slashes before it |
| ExplodeGlob.RelativizeJoined | src/otter/tasks/explode_glob.py:121-122 | a file joined under the release URI becomes exactly the joined path |
| ExplodeGlob.SplitPathJoined | src/otter/tasks/explode_glob.py:130 | splitting a joined directory and file name gives them back |
| ExplodeGlob.SplitNameJoined | src/otter/tasks/explode_glob.py:131 | splitting a non-empty stem joined with a dot-free extension gives them back |
| ExplodeGlob.DecomposeUnderRelease | src/otter/tasks/explode_glob.py:121-133 | a file under the release URI outside the glob prefix decomposes into an empty prefix and its own directory, stem and extension |
| ExplodeGlob.ExampleGlobPrefix | src/otter/tasks/explode_glob.py:112 | the glob prefix of `gs://release-25/input/items/**/*.json` is everything before `**` |
| ExplodeGlob.DocumentedExample | src/otter/tasks/explode_glob.py:121-133 | the code's values for the documented example: the prefix is empty and `match_path` is the whole directory part |
| ExplodeGlob.SlashRun | src/otter/tasks/explode_glob.py:148 | the run of slashes starting at a position, and nothing more |
| ExplodeGlob.CollapseFrom | src/otter/tasks/explode_glob.py:148 | the substitution never lengthens the text and keeps its first character |
| ExplodeGlob.CollapseClean | src/otter/tasks/explode_glob.py:146-148 | after the clean-up every `//` left is immediately preceded by ':' |
| ExplodeGlob.CollapseFromNoDouble | src/otter/tasks/explode_glob.py:148 | a text without `//` is left unchanged |
| ExplodeGlob.StoredOverwrites | src/otter/tasks/explode_glob.py:135-140 | storing the next file's six values overwrites all of the previous file's |
| ExplodeGlob.Cleaned | src/otter/tasks/explode_glob.py:146-148 | same keys in the same order; text values collapsed; other values untouched |
| ExplodeGlob.Matches | src/otter/tasks/explode_glob.py:119-133 | one decomposition per listed file, in listing order |
| ExplodeGlob.Scratches | src/otter/tasks/explode_glob.py:135-140 | one scratchpad per file, each holding that file's six values |
| ExplodeGlob.FileSubtasks | src/otter/tasks/explode_glob.py:143-151 | one cleaned, filled subtask per `do` entry, in `do` order |
| ExplodeGlob.ExpansionLength | src/otter/tasks/explode_glob.py:119-152 | the subtasks of n files number n × \|do\| |
| ExplodeGlob.BlockAt | src/otter/tasks/explode_glob.py:119-152 | file a's subtasks follow those of the files before it, in `do` order |
| ExplodeGlob.ExpansionAt | src/otter/tasks/explode_glob.py:119-152 | file-major order: subtask a × \|do\| + j is `do` entry j filled from file a's values |
| ExplodeGlob.ExplodeGlobTask.constructor | src/otter/tasks/explode_glob.py:104-108 | the task starts with an empty scratchpad and an empty subtask queue |
| ExplodeGlob.ExplodeGlobTask.Store | src/otter/tasks/explode_glob.py:135-140 | the six values of one file are stored |
| ExplodeGlob.ExplodeGlobTask.QueueSubtasks | src/otter/tasks/explode_glob.py:143-152 | one subtask per `do` entry is queued, in order, and counted |
| ExplodeGlob.ExplodeGlobTask.Run | src/otter/tasks/explode_glob.py:111-158 | exactly \|files\| × \|do\| subtasks are queued, file-major and in `do` order, each filled from its file's decomposition; the scratchpad ends with the last file's values; the count is returned, except that an empty listing raises UnboundLocalError, because the subtask queue is bound only inside the loop over the files, and queues nothing |
| ExplodeGlob.ExplodeGlobTask.ExplodeMatches | src/otter/tasks/explode_glob.py:119-152 | the loop over the decomposed files queues the specified expansion and counts it |
| ExplodeGlob.CleanModel | src/otter/tasks/explode_glob.py:146-148 | the in-place rewrite loop gives the cleaned model |
| FindLatest.Key | src/otter/tasks/find_latest.py:48 | the result is stored under `scratchpad_key` when set and non-empty, otherwise under the spec's name |
| FindLatest.Probes | src/otter/tasks/find_latest.py:38-40 | one stat per listed path, in listing order |
| FindLatest.Scan | src/otter/tasks/find_latest.py:37-42 | any chosen index is in range, and nothing is chosen exactly when nothing was listed |
| FindLatest.ScanPicksFirstLatest | src/otter/tasks/find_latest.py:37-42 | when every file has a time, the chosen file's time is at least every listed time, and every earlier file is strictly older (ties go to the first) |
| FindLatest.PrefixFailure | src/otter/tasks/find_latest.py:38-42 | the first failure in the loop is the loop's failure |
| FindLatest.SelectLatest | src/otter/tasks/find_latest.py:37-42 | the loop computes the specified scan |
| FindLatest.Run | src/otter/tasks/find_latest.py:32-49 | (corrected) `run` stores the specified outcome |
| FindLatest.AbsoluteKept | src/otter/tasks/find_latest.py:39-47 | a listed path's handle resolves to the path itself |
| FindLatest.OutcomeShape | src/otter/tasks/find_latest.py:44-48 | an empty listing raises FileNotFoundError and stores nothing; anything stored is under the key |
| FindLatest.PrefixHandleIsRemote | src/otter/tasks/find_latest.py:33-34 | the prefix handle is built without a configuration, so it exists iff the prefix is a URI not rooted at '/'; it is never a filesystem handle, and the only synchronous backend it reaches is Google's |
| FindLatest.AsWrittenNeverStores | src/otter/tasks/find_latest.py:33-35 | as written, for a gs:// prefix awaiting the synchronous `glob` raises TypeError, so nothing is ever stored; for an HTTP or unrecognised prefix the coroutine `glob` raises NotImplementedError in both versions |
| CopyMany.FirstBreak | src/otter/tasks/copy_many.py:83 | the first line break, with none before it |
| CopyMany.SplitLines | src/otter/tasks/copy_many.py:83 | no line holds a line break |
| CopyMany.SplitLinesJoinLines | src/otter/tasks/copy_many.py:83 | splitting a file written one line per "\n" gives the lines back |
| CopyMany.Sources | src/otter/tasks/copy_many.py:75-83 | neither field raises ValueError; a list file gives its lines; otherwise `sources or []` |
| CopyMany.ListFileOverridesSources | src/otter/tasks/copy_many.py:78-83 | with a list file, `sources` plays no part |
| CopyMany.PathName | src/otter/tasks/copy_many.py:53 | a path's name holds no '/' and is not "." |
| CopyMany.PathNameJoined | src/otter/tasks/copy_many.py:53 | the name of `dir + '/' + name` is that name |
| CopyMany.PathNameTrailingSlash | src/otter/tasks/copy_many.py:53 | trailing slashes do not change a path's name |
| CopyMany.DestPath | src/otter/tasks/copy_many.py:53-54 | the destination is `destination + '/' + name of source`, and keeps that name |
| CopyMany.Attempts | src/otter/tasks/copy_many.py:56-62 | MAX_RETRIES + 1 possible attempts, each copying to the same destination path |
| CopyMany.RetryShape | src/otter/tasks/copy_many.py:56-70 | every attempt before the deciding one timed out; the wait before retry k is RETRY_DELAY · 2^k; a timeout is passed on only from the last attempt |
| CopyMany.CopySingleFile | src/otter/tasks/copy_many.py:51-71 | the retry loop returns what the retry rule decides over the attempts, with its waits |
| CopyMany.CopyAttempt | src/otter/tasks/copy_many.py:58-62 | attempt `a` yields exactly the `a`-th outcome the retry rule is applied to: both handles built, the copy made, both absolute locations recorded |
| CopyMany.Gather | src/otter/tasks/copy_many.py:88-89 | succeeds iff every copy succeeded, with one artifact per source in source order; otherwise raises an error of a failed copy |
| CopyMany.GatherFirstError | src/otter/tasks/copy_many.py:89 | the first failed copy decides the error |
| CopyMany.GatherAllOk | src/otter/tasks/copy_many.py:89 | when every copy succeeds, the artifacts are returned in order |
| CopyMany.CopyOutcomes | src/otter/tasks/copy_many.py:88 | one copy outcome per source, in source order |
| CopyMany.CopyAll | src/otter/tasks/copy_many.py:87-89 | the copies gather to one artifact per source in order, or the first failure |
| CopyMany.Run | src/otter/tasks/copy_many.py:74-92 | the sources are selected, then copied; a selection error stops the run before any copy |
| Validators.V | src/otter/validators/__init__.py:14-35 | raises TaskValidationError naming the validator iff the validator returned exactly `False`; the validator's own errors pass through |
| Validators.OnlyFalseFails | src/otter/validators/__init__.py:32 | None, True and other falsy values pass; only `False` fails |
| Validators.Exists | src/otter/validators/file.py:10-36 | (corrected) passes iff the stat succeeds; any stat failure becomes "file does not exist" |
| Validators.ExistsAsWrittenRejectsExisting | src/otter/validators/file.py:31 | as written, awaiting the synchronous `stat` fails for every gs:// and local location, an existing file included; for an HTTP or unrecognised location, whose `stat` is a coroutine, it agrees with the corrected version |
| Validators.Wrapped | src/otter/validators/file.py:84-88 | a TaskValidationError passes unchanged; any other error becomes a validation error |
| Validators.Size | src/otter/validators/file.py:39-88 | (corrected) passes iff the first stat succeeds and either the first size is unknown (None or 0), or the second stat succeeds and its size is unknown or equal; every failure is a TaskValidationError; `force_local` applies to the second file only |
| Validators.SizeSkipsSecondWhenFirstUnknown | src/otter/validators/file.py:67-71 | with the first size unknown the second file is not looked at |
| Validators.SizeMismatchReported | src/otter/validators/file.py:81-82 | two known, different sizes fail with the mismatch message naming both |
| Validators.SizeAsWrittenRejectsEqualSizes | src/otter/validators/file.py:68 | as written, `size` fails for a gs:// or local first location even when both files have the same known size |
| Validators.SizeAsWrittenAgreesWhenAwaitable | src/otter/validators/file.py:66-78 | when both locations are HTTP or unrecognised, whose `stat` is a coroutine, `size` as written agrees with the corrected version |
| Handle.Resolve | src/otter/storage/handle.py:65-83 | a '/'-rooted location, or a relative one without configuration, raises ValueError; a location holding "://" is kept; a relative one goes under the release URI unless forced local or unset, else under the work path |
| Handle.Protocol | src/otter/storage/handle.py:85-90 | the text before the first "://", or none when there is none |
| Handle.RegistryLookup | src/otter/storage/handle.py:21-26 | the registry gives gs → Google, http/https → HTTP, no protocol → filesystem, anything else → no-op |
| Handle.GetStorageMatchesBackendFor | src/otter/storage/handle.py:85-90 | `_get_storage` picks the backend of the location's protocol, the filesystem when there is none |
| Handle.NewHandle | src/otter/storage/handle.py:53-63 | construction fails exactly when resolution does; otherwise the handle holds the resolution and its protocol's backend |
| Handle.IsAbsoluteIffUri | src/otter/storage/handle.py:111-117 | a handle is absolute iff its location holds "://" |
| Handle.StatAt | src/otter/storage/handle.py:119-126 | the stat of a constructed handle is its backend's stat of the resolved location |
| Handle.AwaitedStat | src/otter/storage/http.py:34 | awaiting a handle's `stat`: a raising stat comes first; the coroutine of an HTTP or no-op backend yields the stat; a Google or filesystem `StatResult` cannot be awaited and raises TypeError |
| Handle.DownloadToFile | src/otter/storage/handle.py:152-166 | a stat failure passes through, a non-regular source is ValueError, otherwise the backend downloads |
| Handle.DownloadToString | src/otter/storage/handle.py:168-179 | a stat failure passes through, a non-regular source is ValueError, otherwise the backend downloads |
| Handle.Upload | src/otter/storage/handle.py:181-196 | a non-file source is ValueError; otherwise the backend uploads with the expected revision |
| Handle.CopyChunks | src/otter/storage/handle.py:250-253 | the chunks read and written rebuild the source, each non-empty and all but the last exactly 8192 long |
| Handle.CopyTo | src/otter/storage/handle.py:198-254 | follows the strategy order (refusal, native copy, download/upload, chunked copy reporting revision 0); a chunked copy writes chunks that rebuild the source |
| Handle.CopyRefusesNonRegular | src/otter/storage/handle.py:220-224 | a missing or non-regular source is refused before any copy: ValueError, or NotFoundError naming it |
| Handle.CopySameBackendIsNative | src/otter/storage/handle.py:226-233 | between backends of the same class the native copy's result is returned unless it is not implemented |
| Handle.CopyAcrossBackendsIgnoresNative | src/otter/storage/handle.py:226-245 | between backends of different classes the native copy is never consulted |
| Handle.CopyToFilesystemDownloadsDirectly | src/otter/storage/handle.py:236-239 | into the filesystem no upload is made |
| AsyncHandle.StripWorkPath | src/otter/storage/asynchronous/handle.py:40-41 | a location starting with the work path loses it and the slashes after it; otherwise it is kept |
| AsyncHandle.Resolve | src/otter/storage/asynchronous/handle.py:48-66 | '/'-rooted and "://" locations are kept; a relative one without configuration raises ValueError; otherwise under the release URI unless forced local or unset, else under the work path |
| AsyncHandle.ResolversAgreeOffRoot | src/otter/storage/asynchronous/handle.py:48-66 | the asynchronous and synchronous resolvers differ only on '/'-rooted locations |
| AsyncHandle.WorkPathRoundTrip | src/otter/storage/asynchronous/handle.py:40-41 | round trip: with no release URI, `work_path + '/' + l` is stripped back to `l` and resolves to `work_path + '/' + l` |
| AsyncHandle.NewAsyncHandle | src/otter/storage/asynchronous/handle.py:34-46 | strips the work path, resolves, and takes the backend the registry routes the resolution to; a resolution error leaves the cache untouched |
| AsyncHandle.IsAbsoluteIffRootedOrUri | src/otter/storage/asynchronous/handle.py:87-93 | a resolution is its own location iff that was '/'-rooted or held "://" |
| AsyncHandle.WriteIgnoresExpectedRevision | src/otter/storage/asynchronous/handle.py:135-172 | `write` and `write_text` drop the expected revision and write unconditionally |
| AsyncHandle.CopySameClassIsNative | src/otter/storage/asynchronous/handle.py:188-192 | between backends of one class the native copy's result is returned and nothing is written |
| AsyncHandle.CopyFallsBackToReadWrite | src/otter/storage/asynchronous/handle.py:188-197 | otherwise the source is read and its bytes written to the destination; a read error is passed on and nothing is written |
| StorageRegistry.FirstMatch | src/otter/storage/registry.py:23-27 | the first mapping, in insertion order, whose key is a prefix of the location |
| StorageRegistry.AsyncRouting | src/otter/storage/registry.py:31-36 | '/' → filesystem, gs:// → Google, http(s):// → HTTP, anything else (relative paths included) → no-op |
| StorageRegistry.SyncRouting | src/otter/storage/registry.py:38-43 | the synchronous registry routes the same way |
| StorageRegistry.Backend.constructor | src/otter/storage/registry.py:21-28 | a backend instance of the given class |
| StorageRegistry.Registry.constructor | src/otter/storage/registry.py:17-19 | the registry starts with an empty cache, which satisfies the cache invariant |
| StorageRegistry.Registry.GetStorage | src/otter/storage/registry.py:21-28 | returns the first matching prefix's backend, the cached instance when there is one and a new one cached otherwise; with no match a fresh no-op backend and the cache unchanged; the cache holds only mapping keys with one instance each |
| GoogleApi.ReadOutcome | src/otter/storage/synchronous/google.py:119-144 | the first settled round (no revision before, or the same after) returns its content and revision; the first failing call is classified; while every round saw the object change the loop goes on |
| GoogleApi.ReadDecidedByFirstSettled | src/otter/storage/synchronous/google.py:128-138 | the read is decided by the first settled round, never by a later one |
| GoogleApi.ReadLoop | src/otter/storage/asynchronous/google.py:99-122 | the `while True` download loop computes the specified read |
| GoogleSync.ParseUri | src/otter/storage/synchronous/google.py:30-34 | every "gs://" is removed; the bucket is the text before the first '/', the blob the rest, or "" |
| GoogleSync.ParseUriJoined | src/otter/storage/synchronous/google.py:30-34 | "gs://" + bucket + '/' + blob parses back to bucket and blob |
| GoogleSync.ParseUriBucketRoot | src/otter/storage/synchronous/google.py:30-34 | a bucket root parses to an empty blob |
| GoogleSync.SearchPrefix | src/otter/storage/synchronous/google.py:82-87 | the prefix itself if it ends with '/', `prefix + '/'` if non-empty, "" for a bucket root |
| GoogleSync.SearchPrefixIdempotent | src/otter/storage/synchronous/google.py:82-87 | taking the directory prefix twice changes nothing |
| GoogleSync.Revision | src/otter/storage/synchronous/google.py:131-134 | no generation and generation 0 both give no revision |
| GoogleSync.Stat | src/otter/storage/synchronous/google.py:36-75 | a bucket root is a directory of size 0; an object is a regular file with its size and revision; a missing object is a directory if objects are under its prefix, else NotFoundError; other failures pass through |
| GoogleSync.StatBucketRootAsksNothing | src/otter/storage/synchronous/google.py:41-46 | a bucket root is a directory of size 0, whatever the client would answer |
| GoogleSync.Glob | src/otter/storage/synchronous/google.py:77-100 | one `gs://bucket/name` per listed object, in listing order; a listing failure is StorageError |
| GoogleSync.GlobUrisParseBack | src/otter/storage/synchronous/google.py:91-100 | every reported URI parses back to the listed bucket and name |
| GoogleSync.ClassifyRead | src/otter/storage/synchronous/google.py:139-144 | NotFound → NotFoundError; a "timeout" message → TimeoutError; anything else StorageError |
| GoogleSync.Read | src/otter/storage/synchronous/google.py:119-144 | the download loop with this backend's revision rule |
| GoogleSync.ReadErrorsClassified | src/otter/storage/synchronous/google.py:119-144 | every error `read` raises is a storage error or a timeout |
| GoogleSync.ReadText | src/otter/storage/synchronous/google.py:146-155 | content that does not decode becomes a StorageError; the revision is kept |
| GoogleSync.Write | src/otter/storage/synchronous/google.py:157-182 | the generation match is applied only when a revision is expected; a mismatch is PreconditionFailedError, other failures StorageError; the new generation is the revision |
| GoogleSync.UnconditionalWriteNoMismatch | src/otter/storage/synchronous/google.py:170-180 | an unconditional write never reports a precondition failure |
| GoogleSync.CopyWithin | src/otter/storage/synchronous/google.py:198-214 | a missing object is NotFoundError naming the source, other failures StorageError |
| GoogleAsync.Stat | src/otter/storage/asynchronous/google.py:40-77 | a bucket root is a directory of size 0; an object is a regular file; any metadata failure falls back to the listing: objects make a directory, none NotFoundError, a failing listing StorageError |
| GoogleAsync.StatNeverPassesClientFailure | src/otter/storage/asynchronous/google.py:40-77 | `stat` only fails with StorageError or NotFoundError |
| GoogleAsync.GlobRequest | src/otter/storage/asynchronous/google.py:83-87 | (corrected) the directory prefix followed by the pattern, the pattern alone for a bucket root |
| GoogleAsync.GlobAsWrittenFailsOnBucketRoot | src/otter/storage/asynchronous/google.py:83-87 | as written, an empty prefix leaves the request unbound; elsewhere written and corrected agree |
| GoogleAsync.Glob | src/otter/storage/asynchronous/google.py:79-97 | (corrected) one `gs://bucket/name` per listed name, in order; a listing failure is StorageError |
| GoogleAsync.ClassifyRead | src/otter/storage/asynchronous/google.py:117-122 | timeouts → TimeoutError; "Not Found" or "404" → NotFoundError; anything else StorageError |
| GoogleAsync.Read | src/otter/storage/asynchronous/google.py:99-122 | the download loop, comparing generations as they are |
| GoogleAsync.GenerationZeroDiffers | src/otter/storage/asynchronous/google.py:107-116 | on a generation of 0 the two backends disagree: the synchronous one accepts the first download, the asynchronous one retries |
| GoogleAsync.Headers | src/otter/storage/asynchronous/google.py:144-146 | the generation-match header is sent exactly when a revision is expected, with that revision as text |
| GoogleAsync.Write | src/otter/storage/asynchronous/google.py:135-160 | status 412 → PreconditionFailedError; any other failure StorageError; otherwise the new generation |
| GoogleAsync.CopyWithin | src/otter/storage/asynchronous/google.py:176-190 | a failed copy or metadata call with "Not Found" or "404" is NotFoundError for the source, otherwise StorageError; success returns the new generation |
| GoogleStorage.ParseUri | src/otter/storage/google.py:78-86 | (corrected) succeeds iff the bucket matches the name pattern (4 to 223 characters); otherwise StorageError; no path when there is no '/' |
| GoogleStorage.ParseUriJoined | src/otter/storage/google.py:78-86 | a valid bucket and a path parse back; the bare bucket has no path |
| GoogleStorage.NewlineBucketAccepted | src/otter/storage/google.py:81-82 | as written, a valid bucket name followed by "\n" is accepted; the corrected check refuses it |
| GoogleStorage.NewlineBucketExample | src/otter/storage/google.py:81-82 | `gs://abcd\n` parses to bucket `abcd\n` as written and fails as intended |
| GoogleStorage.PrepareBlob | src/otter/storage/google.py:88-100 | a URI without a path is StorageError; otherwise the path is the blob |
| GoogleStorage.GlobPattern | src/otter/storage/google.py:161-167 | the pattern under the path's directory prefix, the pattern alone without one |
| GoogleStorage.GlobPatternMatchesAsyncRequest | src/otter/storage/google.py:161-167 | this backend composes its pattern as the corrected asynchronous glob does |
| GoogleStorage.Glob | src/otter/storage/google.py:157-174 | (corrected) one `gs://bucket/entry` per listed blob, in order; a bad URI is StorageError |
| GoogleStorage.Upload | src/otter/storage/google.py:212-228 | (corrected) refuses a URI without a blob; a mismatch is PreconditionFailedError, other failures StorageError; success returns the generation, 0 when it has none |
| GoogleStorage.UploadWithoutRevisionUnconditional | src/otter/storage/google.py:218-224 | without a revision the upload asks for no generation match |

## Left out

- Process and worker lifecycle:
  - starting, stopping and killing workers;
  - the manager's queues and events;
  - the polling sleep;
  - `Worker.run` and `worker_process`.

  The queues are sequences. What the workers do between two polls is a trace parameter of `Coordinator.Coordinator.Run`, which reports `None` while the step is still running when the trace ends.
- Code that is not part of this model enters as function parameters:
  - the task state machine (`get_next_state`, the execution method, `abort`);
  - `TaskRegistry.build`;
  - the scratchpad's `replace_dict`;
  - `str(e)` of exceptions.
- `_add_sentinels_to_global_scratchpad` is not modelled; it only writes to the scratchpad, which this model keeps uninterpreted.
- Coordinator.Coordinator.Run: the call `step.finish(result=..., failure_reason=...)` does not match `finish(self, tasks)`. It is modelled as raising TypeError, and the arguments are returned. It is not reconciled with `Step.finish`.
- Coordinator.Coordinator.CompletionPass: states the task table and the completed names, not the step manifest. The manifest upsert is stated per parent by `CompleteIfFinished`.
- Coordinator.Coordinator.CompleteTasksWaitingForSubtasks: also does not state the step manifest, for the same reason.
- Timestamps, elapsed times, the retry jitter and every sleep are omitted.
  - The copy retry waits are returned as whole seconds.
  - RETRY_DELAY is 1.0 in the source and 1 in the model.
- Serialisation and validation (pydantic) are abstract functions. Decoding of stored text is a parameter.
- Environment-driven `while True` loops take the environment's behaviour as a trace:
  - the filesystem and Google re-read loops;
  - the manifest compare-and-swap;
  - the remote upload loop.

  When the trace ends, the environment is quiet, or the loop reports that it is still running (`None`). Neither loop is proved to terminate.
- ManifestManager.ManifestManager.SaveRemote: does not state the manifest content uploaded after refreshes. It states that a completed upload leaves the remote holding the local file's content, together with the exit cases.
- ManifestManager.ManifestManager.Complete: states the returned result and the exits, not the uploaded manifest.
- ManifestModel.Manifest.UpdateRound: the manifest is stored in the filesystem store. A write can fail after the read only because another process deleted the file (`Writer.Remover`), and that failure becomes ManifestError. Other backend failures of a Google write, which the code also turns into ManifestError (src/otter/manifest/model.py:220-222), are not modelled.
- File locks, directory creation and the local manifest's path are left out. The local file is a value of the manager.
- HTTP backends, the Google authentication, client and cached module state, and the `http.py` modules are not part of this model. Client answers are function parameters. Of the HTTP and no-op backends the model keeps only that their `stat` and `glob` are coroutines and which of them raise NotImplementedError (`Handle.Awaitable`, `Handle.AsyncRefusals`).
- The `open` method of each backend, the synchronous `write_text` wrappers, and `StorageHandle.glob`/`open` are not modelled; they only pass calls through.
- The asynchronous Google `_parse_uri` is the synchronous one, character for character. `GoogleSync.ParseUri` stands for both.
- ExplodeGlob.ExplodeGlobTask.Run: takes the glob's listing as the parameter `files`. Constructing the handle and listing (its failures included) and pydantic's `model_validate` of each replaced model are not modelled. Of the final `subtask_queue.join()` only its failure on an empty listing is modelled; the wait for the subtasks is not.
- CopyMany.Run: the copies run one after another, in source order. The semaphore and `asyncio.gather` concurrency are not modelled. So the error raised is that of the first failed copy in source order, where the code raises the first to fail in time. After a failure, gather does not cancel the other copies: they stay scheduled on the worker's event loop and keep running. The model does not capture that either.
- GoogleAsync.Glob: lists a bucket root with the pattern alone, as `GlobRequest` does. The code raises UnboundLocalError there (src/otter/storage/asynchronous/google.py:83-87); `GlobRequestAsWritten` models that.
- GoogleStorage.Glob: parses the URI with the corrected `ParseUri`, so it refuses, with StorageError, a bucket name that ends in a newline. The code accepts that name and calls the client (src/otter/storage/google.py:81-82); `ParseUriAsWritten` models that.
- GoogleStorage.Upload: uses the corrected `ParseUri` as well, with the same difference from the code for a bucket name ending in a newline.
- Worker.ExecuteTask: the event loop that drives a coroutine is not modelled. Both kinds of execution method are one function of the task.
- `otter.util.errors` is not part of this model. NotFoundError and PreconditionFailedError are assumed to be StorageError subclasses, as the `except StorageError` clauses rely on.

## Findings

| source | as written | input that shows it | evidently intended | confidence | as-written member | corrected member |
|---|---|---|---|---|---|---|
| src/otter/storage/google.py:81-82 | the bucket check uses `re.match` with `^...$`, and `$` also matches before a final newline | `gs://abcd\n` is accepted with bucket `abcd\n` | only names matching the pattern exactly are accepted | high (not executed) | GoogleStorage.NewlineBucketAccepted | GoogleStorage.ParseUri |
| src/otter/storage/asynchronous/google.py:83-87 | `search_prefix` is assigned only when the prefix ends with '/' or is non-empty | `glob` on `gs://bucket` raises UnboundLocalError | a bucket root lists with the pattern alone, as the other backend does | high (not executed) | GoogleAsync.GlobAsWrittenFailsOnBucketRoot | GoogleAsync.GlobRequest |
| src/otter/manifest/manifest_manager.py:93-96 | `_refresh_from_remote` discards the manifest `_load_remote` returns and re-applies the step to the stale manifest | another runner's step saved to the release between two uploads is overwritten by the retried upload | the reloaded release manifest is adopted and the relevant step put in | medium (not executed) | ManifestManager.RefreshLosesOtherRunnersStep | ManifestManager.RefreshedMergedKeepsRelease |
| src/otter/tasks/find_latest.py:35 | the list returned by the synchronous `StorageHandle.glob` is awaited | any gs:// source: TypeError before any file is looked at (a local prefix fails earlier, with ValueError, since the handle has no configuration) | the listing is used directly | high (not executed) | FindLatest.AsWrittenNeverStores | FindLatest.OutcomeShape |
| src/otter/validators/file.py:31 | the result of the synchronous `StorageHandle.stat` is awaited, and the TypeError is caught as "file does not exist" | an existing gs:// or local file fails `exists` | the stat result is used directly | high (not executed) | Validators.ExistsAsWrittenRejectsExisting | Validators.Exists |
| src/otter/validators/file.py:68 | the same await in `size`, caught as "could not compare file sizes" | two files of equal size, the first on gs:// or local, fail `size` | the stat results are compared | high (not executed) | Validators.SizeAsWrittenRejectsEqualSizes | Validators.Size |
