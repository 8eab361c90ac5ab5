/** The coordinator of one step: it builds the step's specs into tasks once
    the tasks they require are done, hands the tasks to the workers through
    a task queue, takes them back from a result queue, advances their state,
    tracks the subtasks a task generates and completes the parents whose
    subtasks are all done. Both queues are FIFO sequences; the task table is
    the step's `tasks` map. */
module Coordinator {
  import opened Wrappers
  import opened Errors
  import opened ManifestModel
  import opened TaskModel
  import opened StepModel
  import Dict
  import Worker
  import Seqs

  /** A spec is ready when every task it requires is built and DONE; a spec
      without requirements is always ready. */
  predicate SpecReady(tasks: map<string, Task>, spec: Spec) {
    forall i :: 0 <= i < |spec.dependsOn| ==>
      spec.dependsOn[i] in tasks && tasks[spec.dependsOn[i]].state == Done
  }

  /** The specs of `specs` whose readiness is `ready`, in their order. */
  function Select(tasks: map<string, Task>, specs: seq<Spec>, ready: bool): (r: seq<Spec>)
    ensures |r| <= |specs|
    ensures forall i :: 0 <= i < |r| ==> SpecReady(tasks, r[i]) == ready
  {
    if specs == [] then []
    else
      var init := Select(tasks, specs[..|specs| - 1], ready);
      if SpecReady(tasks, specs[|specs| - 1]) == ready then init + [specs[|specs| - 1]] else init
  }

  /** The ready and the blocked specs together are exactly the specs
      scanned. */
  lemma {:induction false} SelectPartition(tasks: map<string, Task>, specs: seq<Spec>)
    ensures multiset(Select(tasks, specs, true)) + multiset(Select(tasks, specs, false)) == multiset(specs)
  {
    if specs != [] {
      var init := specs[..|specs| - 1];
      var last := specs[|specs| - 1];
      SelectPartition(tasks, init);
      assert specs == init + [last];
      var (t, f) := (Select(tasks, init, true), Select(tasks, init, false));
      if SpecReady(tasks, last) {
        assert Select(tasks, specs, true) == t + [last] && Select(tasks, specs, false) == f;
        assert multiset(t + [last]) == multiset(t) + multiset{last};
      } else {
        assert Select(tasks, specs, true) == t && Select(tasks, specs, false) == f + [last];
        assert multiset(f + [last]) == multiset(f) + multiset{last};
      }
    }
  }

  /** There are as many ready and blocked specs as specs scanned. */
  lemma {:induction false} SelectCount(tasks: map<string, Task>, specs: seq<Spec>)
    ensures |Select(tasks, specs, true)| + |Select(tasks, specs, false)| == |specs|
  {
    if specs != [] {
      SelectCount(tasks, specs[..|specs| - 1]);
    }
  }

  /** Selection keeps the original relative order: selecting from a
      concatenation is the concatenation of the selections. */
  lemma {:induction false} SelectAppend(tasks: map<string, Task>, a: seq<Spec>, b: seq<Spec>, ready: bool)
    ensures Select(tasks, a + b, ready) == Select(tasks, a, ready) + Select(tasks, b, ready)
  {
    if b == [] {
      assert a + b == a;
    } else {
      var init := b[..|b| - 1];
      SelectAppend(tasks, a, init, ready);
      assert (a + b)[..|a + b| - 1] == a + init;
      assert (a + b)[|a + b| - 1] == b[|b| - 1];
    }
  }

  /** The step is complete when there is a task for every spec counted so
      far and every task is DONE. */
  predicate StepComplete(tasks: map<string, Task>, specCount: int) {
    |tasks| == specCount && forall n :: n in tasks ==> tasks[n].state == Done
  }

  /** `_step_result`: PENDING while the step is incomplete; once complete,
      FAILURE if some task's manifest failed, SUCCESS otherwise. */
  function StepResult(tasks: map<string, Task>, specCount: int): (r: Result)
    ensures r == Pending <==> !StepComplete(tasks, specCount)
    ensures r == Failure <==>
      (StepComplete(tasks, specCount) && exists n :: n in tasks && tasks[n].manifest.result == Failure)
    ensures r != Aborted
  {
    if !StepComplete(tasks, specCount) then Pending
    else if exists n :: n in tasks && tasks[n].manifest.result == Failure then Failure
    else Success
  }

  /** The subtask table after a task that generated `task.specs`: the names
      of the new specs are appended to the parent's list, created empty if
      missing; a task that generated nothing leaves the table alone. */
  function Tracked(subtasks: Dict.Dict<string, seq<string>>, task: Task): Dict.Dict<string, seq<string>> {
    if task.specs == [] then subtasks
    else Dict.Put(subtasks, task.spec.name, Dict.Get(subtasks, task.spec.name).GetOr([]) + Names(task.specs))
  }

  /** Tracking extends only the parent's list, by the names of the new specs
      in order, and keeps the table a dictionary. */
  lemma TrackedGet(subtasks: Dict.Dict<string, seq<string>>, task: Task, name: string)
    requires Dict.UniqueKeys(subtasks)
    ensures Dict.UniqueKeys(Tracked(subtasks, task))
    ensures Dict.Get(Tracked(subtasks, task), name) ==
      if task.specs != [] && name == task.spec.name
      then Some(Dict.Get(subtasks, name).GetOr([]) + Names(task.specs))
      else Dict.Get(subtasks, name)
  {
    if task.specs != [] {
      var v := Dict.Get(subtasks, task.spec.name).GetOr([]) + Names(task.specs);
      Dict.PutGet(subtasks, task.spec.name, v, name);
    }
  }

  /** A parent may be completed when it is WAITING_FOR_SUBTASKS and each of
      its subtasks is a built task that is DONE. */
  predicate FinishedWaiting(tasks: map<string, Task>, name: string, subtasks: seq<string>) {
    name in tasks && tasks[name].state == WaitingForSubtasks &&
    forall i :: 0 <= i < |subtasks| ==> subtasks[i] in tasks && tasks[subtasks[i]].state == Done
  }

  /** The task table with `name` advanced one state. */
  function Advanced(tasks: map<string, Task>, name: string, nextState: Task -> State): map<string, Task>
    requires name in tasks
  {
    tasks[name := tasks[name].(state := nextState(tasks[name]))]
  }

  /** One completion pass over tracked parents `entries`, in table order:
      the task table after the pass and the names completed. Each parent
      found finished advances one state, which the later checks see. */
  function Pass(tasks: map<string, Task>, entries: Dict.Dict<string, seq<string>>, nextState: Task -> State)
    : (map<string, Task>, seq<string>)
  {
    if entries == [] then (tasks, [])
    else
      var (name, subtasks) := entries[0];
      if FinishedWaiting(tasks, name, subtasks) then
        var rest := Pass(Advanced(tasks, name, nextState), entries[1..], nextState);
        (rest.0, [name] + rest.1)
      else Pass(tasks, entries[1..], nextState)
  }

  /** Names drawn from the rest of a key list, without repeats, stay so
      under the key list, and the first key may be put in front of them. */
  lemma TailNamesExtend(keys: seq<string>, rest: seq<string>)
    requires keys != [] && keys[0] !in keys[1..]
    requires forall j :: 0 <= j < |rest| ==> rest[j] in keys[1..]
    requires forall a, b :: 0 <= a < b < |rest| ==> rest[a] != rest[b]
    ensures forall j :: 0 <= j < |rest| ==> rest[j] in keys
    ensures var c := [keys[0]] + rest;
      (forall j :: 0 <= j < |c| ==> c[j] in keys) && (forall a, b :: 0 <= a < b < |c| ==> c[a] != c[b])
  {
    var c := [keys[0]] + rest;
    forall j | 0 <= j < |rest| ensures rest[j] in keys && rest[j] != keys[0] {
      var p :| 0 <= p < |keys[1..]| && keys[1..][p] == rest[j];
      assert keys[p + 1] == rest[j];
    }
    forall a, b | 0 <= a < b < |c| ensures c[a] != c[b] {
      assert c[b] == rest[b - 1];
      if a > 0 {
        assert c[a] == rest[a - 1];
      }
    }
  }

  /** A pass completes only tracked parents, each at most once. */
  lemma {:induction false} PassCompletesTracked(tasks: map<string, Task>, entries: Dict.Dict<string, seq<string>>,
                                                nextState: Task -> State)
    requires Dict.UniqueKeys(entries)
    ensures var c := Pass(tasks, entries, nextState).1;
      (forall j :: 0 <= j < |c| ==> c[j] in Dict.Keys(entries)) &&
      (forall a, b :: 0 <= a < b < |c| ==> c[a] != c[b])
  {
    if entries != [] {
      var name := entries[0].0;
      var finished := FinishedWaiting(tasks, name, entries[0].1);
      var t := if finished then Advanced(tasks, name, nextState) else tasks;
      Dict.UniqueKeysTail(entries);
      PassCompletesTracked(t, entries[1..], nextState);
      assert var c := Pass(t, entries[1..], nextState).1; forall j :: 0 <= j < |c| ==> c[j] in Dict.Keys(entries[1..]);
      assert var c := Pass(t, entries[1..], nextState).1; forall a, b :: 0 <= a < b < |c| ==> c[a] != c[b];
      var rest := Pass(t, entries[1..], nextState).1;
      var keys := Dict.Keys(entries);
      assert Dict.Keys(entries[1..]) == keys[1..];
      assert name == keys[0] && name !in keys[1..];
      TailNamesExtend(keys, rest);
      assert Pass(tasks, entries, nextState).1 == if finished then [name] + rest else rest;
    }
  }

  /** A pass keeps the table's names; each completed parent was
      WAITING_FOR_SUBTASKS and advanced exactly once, every other task is
      as it was. */
  lemma {:induction false} PassAdvancesCompleted(tasks: map<string, Task>, entries: Dict.Dict<string, seq<string>>,
                                                 nextState: Task -> State)
    requires Dict.UniqueKeys(entries)
    ensures var (t, c) := Pass(tasks, entries, nextState);
      t.Keys == tasks.Keys &&
      (forall n :: n in t && n !in c ==> t[n] == tasks[n]) &&
      (forall n :: n in c ==> n in tasks && tasks[n].state == WaitingForSubtasks &&
                              t[n] == tasks[n].(state := nextState(tasks[n])))
  {
    if entries != [] {
      var (name, subtasks) := entries[0];
      Dict.UniqueKeysTail(entries);
      if FinishedWaiting(tasks, name, subtasks) {
        var t1 := Advanced(tasks, name, nextState);
        PassAdvancesCompleted(t1, entries[1..], nextState);
        PassCompletesTracked(t1, entries[1..], nextState);
        var keys := Dict.Keys(entries);
        assert Dict.Keys(entries[1..]) == keys[1..];
        assert name == keys[0] && name !in keys[1..];
      } else {
        PassAdvancesCompleted(tasks, entries[1..], nextState);
      }
    }
  }

  /** A pass that completes nothing changes nothing and found no tracked
      parent finished. */
  lemma {:induction false} PassNothingFinished(tasks: map<string, Task>, entries: Dict.Dict<string, seq<string>>,
                                               nextState: Task -> State)
    requires Pass(tasks, entries, nextState).1 == []
    ensures Pass(tasks, entries, nextState).0 == tasks
    ensures forall i :: 0 <= i < |entries| ==> !FinishedWaiting(tasks, entries[i].0, entries[i].1)
  {
    if entries != [] {
      PassNothingFinished(tasks, entries[1..], nextState);
      assert forall i :: 1 <= i < |entries| ==> entries[i] == entries[1..][i - 1];
    }
  }

  /** The exception `_process_done_tasks` raises for a failed task, chosen
      by the state the task failed in. */
  function FailureError(task: Task): Error {
    match task.state
    case Running => TaskRunError(task.manifest.failureReason)
    case Validating => TaskValidationError(task.manifest.failureReason)
    case _ => StepFailedError("task " + task.spec.name + " failed: " + task.manifest.failureReason)
  }

  /** The coordinator's bookkeeping that processing done tasks and ready
      specs changes: the step's task table and manifest, the remaining
      specs, the spec count, the subtask table and the task queue. */
  datatype Books = Books(tasks: map<string, Task>, manifest: StepManifest, remaining: seq<Spec>,
                         specCount: int, subtasks: Dict.Dict<string, seq<string>>, queue: seq<Task>)

  /** A task handed back by a worker, advanced one state. */
  function Advance(task: Task, nextState: Task -> State): Task {
    task.(state := nextState(task))
  }

  /** One handed-back task that did not fail: it advances one state; if it
      now awaits validation, the specs it generated join the remaining
      specs and the count, their names are tracked under it and it is
      enqueued again; if it is now DONE, its manifest is upserted; and it
      replaces its entry in the table. */
  function DoneStep(b: Books, task: Task, nextState: Task -> State): Books {
    var t := Advance(task, nextState);
    var waits := t.state == PendingValidation;
    b.(tasks := b.tasks[t.spec.name := t],
       manifest := if t.state == Done then Upserted(b.manifest, t.spec.name, t.manifest, t.artifacts) else b.manifest,
       remaining := b.remaining + (if waits then t.specs else []),
       specCount := b.specCount + (if waits then |t.specs| else 0),
       subtasks := if waits then Tracked(b.subtasks, t) else b.subtasks,
       queue := b.queue + (if waits then [t] else []))
  }

  /** The processing of the drained tasks `done`, in order: each task that
      did not fail is a `DoneStep`; the first one whose manifest says
      FAILURE has its manifest upserted and stops the pass with its error. */
  function DonePass(b: Books, done: seq<Task>, nextState: Task -> State): (Books, Outcome<(), Error>)
    decreases |done|
  {
    if done == [] then (b, Ok(()))
    else if done[0].manifest.result == Failure then
      (b.(manifest := Upserted(b.manifest, done[0].spec.name, done[0].manifest, done[0].artifacts)),
       Err(FailureError(done[0])))
    else DonePass(DoneStep(b, done[0], nextState), done[1..], nextState)
  }

  /** The pass from the `i`-th drained task on is that task's processing
      followed by the pass from the next one. */
  lemma DonePassStep(b: Books, done: seq<Task>, i: nat, nextState: Task -> State)
    requires i < |done|
    ensures done[i].manifest.result == Failure ==>
      DonePass(b, done[i..], nextState) ==
        (b.(manifest := Upserted(b.manifest, done[i].spec.name, done[i].manifest, done[i].artifacts)),
         Err(FailureError(done[i])))
    ensures done[i].manifest.result != Failure ==>
      DonePass(b, done[i..], nextState) == DonePass(DoneStep(b, done[i], nextState), done[i + 1..], nextState)
  {
    assert done[i..][1..] == done[i + 1..];
  }

  /** The tasks of `done` that go back on the task queue for validation,
      advanced, in order. */
  function Requeued(done: seq<Task>, nextState: Task -> State): seq<Task>
    decreases |done|
  {
    if done == [] then []
    else
      var t := Advance(done[0], nextState);
      (if t.state == PendingValidation then [t] else []) + Requeued(done[1..], nextState)
  }

  /** The specs generated by the tasks of `done` that go back for
      validation, in order. */
  function Generated(done: seq<Task>, nextState: Task -> State): seq<Spec>
    decreases |done|
  {
    if done == [] then []
    else
      var t := Advance(done[0], nextState);
      (if t.state == PendingValidation then t.specs else []) + Generated(done[1..], nextState)
  }

  /** No drained task has a FAILURE manifest. */
  predicate NoneFailed(done: seq<Task>) {
    forall j :: 0 <= j < |done| ==> done[j].manifest.result != Failure
  }

  /** The drained task at `j` is the first with a FAILURE manifest. */
  predicate FirstFailed(done: seq<Task>, j: int) {
    0 <= j < |done| && done[j].manifest.result == Failure &&
    forall i :: 0 <= i < j ==> done[i].manifest.result != Failure
  }

  /** The pass succeeds exactly when no drained task failed. */
  lemma {:induction false} DonePassOutcome(b: Books, done: seq<Task>, nextState: Task -> State)
    ensures DonePass(b, done, nextState).1.Ok? <==> NoneFailed(done)
    decreases |done|
  {
    if done != [] && done[0].manifest.result != Failure {
      var rest := done[1..];
      DonePassOutcome(DoneStep(b, done[0], nextState), rest, nextState);
      assert DonePass(b, done, nextState).1 == DonePass(DoneStep(b, done[0], nextState), rest, nextState).1;
      assert forall j :: 1 <= j < |done| ==> done[j] == rest[j - 1];
    }
  }

  /** A failed pass reports the error of the first failed task, a run,
      validation or step failure. */
  lemma {:induction false} DonePassFirstFailure(b: Books, done: seq<Task>, nextState: Task -> State)
    ensures var r := DonePass(b, done, nextState).1;
      r.Err? ==>
        (r.error.TaskRunError? || r.error.TaskValidationError? || r.error.StepFailedError?) &&
        exists j :: FirstFailed(done, j) && r.error == FailureError(done[j])
    decreases |done|
  {
    if done != [] && done[0].manifest.result != Failure {
      var rest := done[1..];
      var r := DonePass(DoneStep(b, done[0], nextState), rest, nextState).1;
      DonePassFirstFailure(DoneStep(b, done[0], nextState), rest, nextState);
      assert DonePass(b, done, nextState).1 == r;
      if r.Err? {
        var k :| FirstFailed(rest, k) && r.error == FailureError(rest[k]);
        assert done[k + 1] == rest[k];
        assert forall i :: 1 <= i < k + 1 ==> done[i] == rest[i - 1];
        assert FirstFailed(done, k + 1);
      }
    } else if done != [] {
      assert FirstFailed(done, 0);
    }
  }

  /** The pass keeps the subtask table a dictionary. */
  lemma {:induction false} DonePassKeepsUnique(b: Books, done: seq<Task>, nextState: Task -> State)
    requires Dict.UniqueKeys(b.subtasks)
    ensures Dict.UniqueKeys(DonePass(b, done, nextState).0.subtasks)
    decreases |done|
  {
    if done != [] && done[0].manifest.result != Failure {
      TrackedGet(b.subtasks, Advance(done[0], nextState), "");
      DonePassKeepsUnique(DoneStep(b, done[0], nextState), done[1..], nextState);
    }
  }

  /** When every drained task is one of the table's, the pass keeps the
      table's names, and so keeps every counted spec either built into a
      task or still remaining. */
  lemma {:induction false} DonePassCounted(b: Books, done: seq<Task>, nextState: Task -> State)
    requires forall j :: 0 <= j < |done| ==> done[j].spec.name in b.tasks
    ensures var b' := DonePass(b, done, nextState).0;
      b'.tasks.Keys == b.tasks.Keys &&
      (|b.tasks| + |b.remaining| == b.specCount ==> |b'.tasks| + |b'.remaining| == b'.specCount)
    decreases |done|
  {
    if done != [] && done[0].manifest.result != Failure {
      var b1 := DoneStep(b, done[0], nextState);
      assert b1.tasks.Keys == b.tasks.Keys;
      assert forall j :: 0 <= j < |done[1..]| ==> done[1..][j] == done[j + 1];
      DonePassCounted(b1, done[1..], nextState);
    }
  }

  /** A successful pass puts exactly the tasks that now await validation
      back on the task queue, in order. */
  lemma {:induction false} DonePassQueue(b: Books, done: seq<Task>, nextState: Task -> State)
    ensures var p := DonePass(b, done, nextState);
      p.1.Ok? ==> p.0.queue == b.queue + Requeued(done, nextState)
    decreases |done|
  {
    if done != [] && done[0].manifest.result != Failure {
      var t := Advance(done[0], nextState);
      var q := if t.state == PendingValidation then [t] else [];
      var b1 := DoneStep(b, done[0], nextState);
      var rest := done[1..];
      var p := DonePass(b1, rest, nextState);
      DonePassQueue(b1, rest, nextState);
      assert DonePass(b, done, nextState) == p;
      assert Requeued(done, nextState) == q + Requeued(rest, nextState);
      if p.1.Ok? {
        Seqs.AppendAssoc(b.queue, q, Requeued(rest, nextState));
      }
    }
  }

  /** A successful pass adds exactly the specs generated by the tasks that
      now await validation to the remaining specs, in order, and their
      number to the spec count. */
  lemma {:induction false} DonePassGenerated(b: Books, done: seq<Task>, nextState: Task -> State)
    ensures var p := DonePass(b, done, nextState);
      p.1.Ok? ==>
        p.0.remaining == b.remaining + Generated(done, nextState) &&
        p.0.specCount == b.specCount + |Generated(done, nextState)|
    decreases |done|
  {
    if done != [] && done[0].manifest.result != Failure {
      var t := Advance(done[0], nextState);
      var g := if t.state == PendingValidation then t.specs else [];
      var b1 := DoneStep(b, done[0], nextState);
      var rest := done[1..];
      var p := DonePass(b1, rest, nextState);
      DonePassGenerated(b1, rest, nextState);
      assert DonePass(b, done, nextState) == p;
      assert Generated(done, nextState) == g + Generated(rest, nextState);
      if p.1.Ok? {
        Seqs.AppendAssoc(b.remaining, g, Generated(rest, nextState));
        assert p.0.specCount == b.specCount + |g| + |Generated(rest, nextState)|;
      }
    }
  }

  /** After a successful pass a task that was not handed back is as it
      was. */
  lemma {:induction false} DonePassKeepsOthers(b: Books, done: seq<Task>, nextState: Task -> State, n: string)
    requires n in b.tasks && forall j :: 0 <= j < |done| ==> done[j].spec.name != n
    ensures var p := DonePass(b, done, nextState);
      p.1.Ok? ==> n in p.0.tasks && p.0.tasks[n] == b.tasks[n]
    decreases |done|
  {
    if done != [] && done[0].manifest.result != Failure {
      assert forall j :: 0 <= j < |done[1..]| ==> done[1..][j] == done[j + 1];
      DonePassKeepsOthers(DoneStep(b, done[0], nextState), done[1..], nextState, n);
    }
  }

  /** After a successful pass a handed-back task that is not handed back
      again later holds its advanced copy in the table. */
  lemma {:induction false} DonePassAdvanced(b: Books, done: seq<Task>, nextState: Task -> State, j: nat)
    requires j < |done| && forall k :: j < k < |done| ==> done[k].spec.name != done[j].spec.name
    ensures var p := DonePass(b, done, nextState);
      p.1.Ok? ==> done[j].spec.name in p.0.tasks && p.0.tasks[done[j].spec.name] == Advance(done[j], nextState)
    decreases |done|
  {
    if done[0].manifest.result != Failure {
      var b1 := DoneStep(b, done[0], nextState);
      var rest := done[1..];
      assert forall k :: 0 <= k < |rest| ==> rest[k] == done[k + 1];
      if j == 0 {
        DonePassKeepsOthers(b1, rest, nextState, done[0].spec.name);
      } else {
        DonePassAdvanced(b1, rest, nextState, j - 1);
      }
    }
  }

  /** `_process_ready_specs` over the ready specs, in order: each is built
      into a task as `_build_spec_into_task` does (a build failure is a
      TaskBuildError unless it is a TaskDuplicateError, and a name already
      in the table a TaskDuplicateError), stored under the spec's name, its
      manifest upserted, and enqueued; the first error stops the pass. */
  function ReadyPass(b: Books, ready: seq<Spec>, build: Spec -> Outcome<Task, Error>): (Books, Outcome<(), Error>)
    decreases |ready|
  {
    if ready == [] then (b, Ok(()))
    else
      var s := ready[0];
      if build(s).Err? then
        (b, Err(if build(s).error.TaskDuplicateError? then build(s).error else TaskBuildError(s.name)))
      else if s.name in b.tasks then (b, Err(TaskDuplicateError(s.name)))
      else
        ReadyPass(ReadyStep(b, s.name, build(s).value), ready[1..], build)
  }

  /** A built task stored under its spec's name, its manifest upserted and
      the task enqueued. */
  function ReadyStep(b: Books, name: string, t: Task): Books {
    b.(tasks := b.tasks[name := t], manifest := Upserted(b.manifest, t.spec.name, t.manifest, t.artifacts),
       queue := b.queue + [t])
  }

  /** The tasks built from specs that all build. */
  function Built(ready: seq<Spec>, build: Spec -> Outcome<Task, Error>): seq<Task>
    requires forall i :: 0 <= i < |ready| ==> build(ready[i]).Ok?
  {
    if ready == [] then [] else [build(ready[0]).value] + Built(ready[1..], build)
  }

  /** The step manifest with the manifests of `ts` upserted in order. */
  function UpsertedAll(m: StepManifest, ts: seq<Task>): StepManifest
    decreases |ts|
  {
    if ts == [] then m else UpsertedAll(Upserted(m, ts[0].spec.name, ts[0].manifest, ts[0].artifacts), ts[1..])
  }

  /** A pass over ready specs fails only with a duplicate or a build error,
      and touches neither the remaining specs, the count nor the subtask
      table. */
  lemma {:induction false} ReadyPassErrors(b: Books, ready: seq<Spec>, build: Spec -> Outcome<Task, Error>)
    ensures var p := ReadyPass(b, ready, build);
      (p.1.Err? ==> p.1.error.TaskDuplicateError? || p.1.error.TaskBuildError?) &&
      p.0.remaining == b.remaining && p.0.specCount == b.specCount && p.0.subtasks == b.subtasks
    decreases |ready|
  {
    if ready != [] && build(ready[0]).Ok? && ready[0].name !in b.tasks {
      ReadyPassErrors(ReadyStep(b, ready[0].name, build(ready[0]).value), ready[1..], build);
    }
  }

  /** A successful pass built every ready spec, under names that were not
      in the table and are pairwise distinct. */
  lemma {:induction false} ReadyPassFresh(b: Books, ready: seq<Spec>, build: Spec -> Outcome<Task, Error>)
    ensures ReadyPass(b, ready, build).1.Ok? ==>
      (forall i :: 0 <= i < |ready| ==> build(ready[i]).Ok? && ready[i].name !in b.tasks) &&
      (forall i, j :: 0 <= i < j < |ready| ==> ready[i].name != ready[j].name)
    decreases |ready|
  {
    if ready != [] && build(ready[0]).Ok? && ready[0].name !in b.tasks {
      var b1 := ReadyStep(b, ready[0].name, build(ready[0]).value);
      var rest := ready[1..];
      ReadyPassFresh(b1, rest, build);
      assert forall i :: 0 <= i < |rest| ==> rest[i] == ready[i + 1];
      if ReadyPass(b, ready, build).1.Ok? {
        forall i, j | 0 <= i < j < |ready| ensures ready[i].name != ready[j].name {
          if i == 0 {
            assert rest[j - 1].name !in b1.tasks;
          }
        }
      }
    }
  }

  /** A successful pass keeps every task of the table, stores each built
      task under its spec's name and grows the table by the number of
      ready specs. */
  lemma {:induction false} ReadyPassTable(b: Books, ready: seq<Spec>, build: Spec -> Outcome<Task, Error>)
    ensures var p := ReadyPass(b, ready, build);
      p.1.Ok? ==>
        (forall n :: n in b.tasks ==> n in p.0.tasks && p.0.tasks[n] == b.tasks[n]) &&
        (forall i :: 0 <= i < |ready| ==>
           build(ready[i]).Ok? && ready[i].name in p.0.tasks && p.0.tasks[ready[i].name] == build(ready[i]).value) &&
        |p.0.tasks| == |b.tasks| + |ready|
    decreases |ready|
  {
    if ready != [] && build(ready[0]).Ok? && ready[0].name !in b.tasks {
      var b1 := ReadyStep(b, ready[0].name, build(ready[0]).value);
      var rest := ready[1..];
      ReadyPassTable(b1, rest, build);
      var p := ReadyPass(b, ready, build);
      assert p == ReadyPass(b1, rest, build);
      if p.1.Ok? {
        forall i | 0 <= i < |ready|
          ensures build(ready[i]).Ok? && ready[i].name in p.0.tasks && p.0.tasks[ready[i].name] == build(ready[i]).value
        {
          if i > 0 {
            assert ready[i] == rest[i - 1];
          }
        }
      }
    }
  }

  /** A successful pass enqueues the built tasks in order and upserts
      their manifests in order. */
  lemma {:induction false} ReadyPassQueue(b: Books, ready: seq<Spec>, build: Spec -> Outcome<Task, Error>)
    ensures var p := ReadyPass(b, ready, build);
      p.1.Ok? ==>
        (forall i :: 0 <= i < |ready| ==> build(ready[i]).Ok?) &&
        p.0.queue == b.queue + Built(ready, build) &&
        p.0.manifest == UpsertedAll(b.manifest, Built(ready, build))
    decreases |ready|
  {
    if ready != [] && build(ready[0]).Ok? && ready[0].name !in b.tasks {
      var t := build(ready[0]).value;
      var rest := ready[1..];
      ReadyPassQueue(ReadyStep(b, ready[0].name, t), rest, build);
      if ReadyPass(b, ready, build).1.Ok? {
        assert forall i :: 0 <= i < |rest| ==> rest[i] == ready[i + 1];
        assert Built(ready, build) == [t] + Built(rest, build);
        Seqs.AppendAssoc(b.queue, [t], Built(rest, build));
      }
    }
  }

  /** A complete step has no spec left to build: once every counted spec
      has its task and all are DONE, a pass over the ready specs builds and
      enqueues nothing. */
  lemma CompleteBuildsNothing(b: Books, build: Spec -> Outcome<Task, Error>)
    requires |b.tasks| + |b.remaining| == b.specCount && StepComplete(b.tasks, b.specCount)
    ensures b.remaining == [] && Select(b.tasks, b.remaining, true) == []
    ensures ReadyPass(b, Select(b.tasks, b.remaining, true), build) == (b, Ok(()))
  {
  }

  /** The tasks the workers hand back after executing `ts`, in order: each
      is what a worker makes of the task at the same position when no
      abort is set. */
  function Executed(ts: seq<Task>, nextState: Task -> State, execute: Task -> Task): (r: seq<Task>)
    ensures |r| == |ts|
    ensures forall i :: 0 <= i < |ts| ==> r[i] == execute(ts[i].(state := nextState(ts[i]), abortAttached := true))
  {
    if ts == [] then []
    else
      var last := ts[|ts| - 1];
      Executed(ts[..|ts| - 1], nextState, execute) + [execute(last.(state := nextState(last), abortAttached := true))]
  }

  datatype Workers = Stopped | Killed

  /** How `run` ends: the arguments it passes to `step.finish`, which
      workers were stopped or killed, and the error the `finish` call
      itself raises. */
  datatype RunEnd = RunEnd(result: Result, failureReason: Option<string>, workers: Workers, raised: Error)

  class Coordinator {
    const step: Step
    var specCount: int
    var remaining: seq<Spec>
    var taskQueue: seq<Task>
    var resultQueue: seq<Task>
    var taskSubtasks: Dict.Dict<string, seq<string>>

    constructor (step: Step)
      ensures this.step == step && specCount == |step.specs| && remaining == step.specs
      ensures taskQueue == [] && resultQueue == [] && taskSubtasks == []
    {
      this.step := step;
      specCount := |step.specs|;
      remaining := step.specs;
      taskQueue := [];
      resultQueue := [];
      taskSubtasks := [];
    }

    /** Every spec counted is either built into a task or still remaining. */
    ghost predicate Counted()
      reads this, step
    {
      |step.tasks| + |remaining| == specCount
    }

    /** The bookkeeping as a value. */
    function Snapshot(): Books
      reads this, step
    {
      Books(step.tasks, step.manifest, remaining, specCount, taskSubtasks, taskQueue)
    }

    /** `_is_spec_ready`: scan the requirements, stopping at the first one
        that is not built or not DONE. */
    method IsSpecReady(spec: Spec) returns (ready: bool)
      ensures ready == SpecReady(step.tasks, spec)
    {
      var i := 0;
      while i < |spec.dependsOn|
        invariant 0 <= i <= |spec.dependsOn|
        invariant forall j :: 0 <= j < i ==>
          spec.dependsOn[j] in step.tasks && step.tasks[spec.dependsOn[j]].state == Done
      {
        var name := spec.dependsOn[i];
        if name !in step.tasks {
          return false;
        }
        if step.tasks[name].state != Done {
          return false;
        }
        i := i + 1;
      }
      return true;
    }

    /** `_get_ready_specs`: pop every remaining spec from the front, keep the
        ready ones and put the others in a new deque, which becomes the
        remaining specs. */
    method GetReadySpecs() returns (ready: seq<Spec>)
      modifies this`remaining
      ensures ready == Select(step.tasks, old(remaining), true)
      ensures remaining == Select(step.tasks, old(remaining), false)
    {
      ghost var all := remaining;
      ghost var k := 0;
      ready := [];
      var blocked := [];
      while remaining != []
        invariant 0 <= k <= |all| && remaining == all[k..]
        invariant ready == Select(step.tasks, all[..k], true)
        invariant blocked == Select(step.tasks, all[..k], false)
        decreases |remaining|
      {
        var spec := remaining[0];
        remaining := remaining[1..];
        var ok := IsSpecReady(spec);
        if ok {
          ready := ready + [spec];
        } else {
          blocked := blocked + [spec];
        }
        assert all[..k + 1][..k] == all[..k] && all[..k + 1][k] == spec;
        k := k + 1;
      }
      assert all[..k] == all;
      remaining := blocked;
    }

    /** `_build_spec_into_task`: build the spec; a spec whose name is
        already in the task table is a TaskDuplicateError, any other failure
        a TaskBuildError (a TaskDuplicateError from the build itself passes
        through). On success the task is stored under the spec's name and
        its manifest upserted into the step. */
    method BuildSpecIntoTask(s: Spec, build: Spec -> Outcome<Task, Error>) returns (r: Outcome<Task, Error>)
      modifies step
      ensures build(s).Err? ==>
        r == Err(if build(s).error.TaskDuplicateError? then build(s).error else TaskBuildError(s.name))
      ensures build(s).Ok? && s.name in old(step.tasks) ==> r == Err(TaskDuplicateError(s.name))
      ensures r.Err? ==> step.tasks == old(step.tasks) && step.manifest == old(step.manifest)
      ensures build(s).Ok? && s.name !in old(step.tasks) ==>
        r == Ok(build(s).value) && step.tasks == old(step.tasks)[s.name := r.value] &&
        step.manifest == Upserted(old(step.manifest), r.value.spec.name, r.value.manifest, r.value.artifacts)
    {
      var built := build(s);
      if built.Err? {
        if built.error.TaskDuplicateError? {
          return Err(built.error);
        }
        return Err(TaskBuildError(s.name));
      }
      var t := built.value;
      if s.name in step.tasks {
        return Err(TaskDuplicateError(s.name));
      }
      step.tasks := step.tasks[s.name := t];
      step.UpsertTaskManifest(t);
      r := Ok(t);
    }

    /** `_enqueue_tasks`: put each task on the task queue, in order. */
    method EnqueueTasks(tasks: seq<Task>)
      modifies this`taskQueue
      ensures taskQueue == old(taskQueue) + tasks
    {
      for i := 0 to |tasks|
        invariant taskQueue == old(taskQueue) + tasks[..i]
      {
        taskQueue := taskQueue + [tasks[i]];
        assert tasks[..i + 1] == tasks[..i] + [tasks[i]];
      }
      assert tasks[..|tasks|] == tasks;
    }

    /** `_is_step_complete` */
    function IsStepComplete(): (c: bool)
      reads this, step
      ensures c == StepComplete(step.tasks, specCount)
    {
      |step.tasks| == specCount && forall n :: n in step.tasks ==> step.tasks[n].state == Done
    }

    /** `_get_task_results`: take every task off the result queue. */
    method GetTaskResults() returns (done: seq<Task>)
      modifies this`resultQueue
      ensures done == old(resultQueue) && resultQueue == []
    {
      done := [];
      while resultQueue != []
        invariant done + resultQueue == old(resultQueue)
        decreases |resultQueue|
      {
        assert (done + [resultQueue[0]]) + resultQueue[1..] == done + resultQueue;
        done := done + [resultQueue[0]];
        resultQueue := resultQueue[1..];
      }
    }

    /** `_add_new_specs_from_task`: the specs a task generated join the
        remaining specs and the spec count, and their names are tracked as
        the task's subtasks. */
    method AddNewSpecsFromTask(task: Task)
      modifies this`remaining, this`specCount, this`taskSubtasks
      ensures remaining == old(remaining) + task.specs
      ensures specCount == old(specCount) + |task.specs|
      ensures taskSubtasks == Tracked(old(taskSubtasks), task)
      ensures old(Counted()) ==> Counted()
    {
      if task.specs != [] {
        remaining := remaining + task.specs;
        specCount := specCount + |task.specs|;
        var current := Dict.Get(taskSubtasks, task.spec.name).GetOr([]);
        taskSubtasks := Dict.Put(taskSubtasks, task.spec.name, current + Names(task.specs));
      }
    }

    /** One iteration of `_process_done_tasks`. A task whose manifest says
        FAILURE is upserted and raises the error its state calls for; any
        other task is a `DoneStep`. */
    method ProcessDoneTask(task: Task, nextState: Task -> State) returns (r: Outcome<(), Error>)
      modifies this`remaining, this`specCount, this`taskSubtasks, this`taskQueue, step
      ensures task.manifest.result == Failure ==>
        r == Err(FailureError(task)) &&
        Snapshot() == old(Snapshot()).(manifest := Upserted(old(step.manifest), task.spec.name, task.manifest, task.artifacts))
      ensures task.manifest.result != Failure ==>
        r == Ok(()) && Snapshot() == DoneStep(old(Snapshot()), task, nextState)
    {
      if task.manifest.result == Failure {
        step.UpsertTaskManifest(task);
        return Err(FailureError(task));
      }
      var t := task.(state := nextState(task));
      if t.state == PendingValidation {
        AddNewSpecsFromTask(t);
        EnqueueTasks([t]);
      }
      if t.state == Done {
        step.UpsertTaskManifest(t);
      }
      step.tasks := step.tasks[t.spec.name := t];
      r := Ok(());
    }

    /** `_process_done_tasks`: drain the result queue and process the tasks
        in order; the first failed one stops the pass with its error, and
        the tasks after it are dropped. The new bookkeeping and the outcome
        are the `DonePass` over the drained tasks; when every drained task
        is one of the table's, a successful pass keeps the count of tasks
        and remaining specs in agreement with the spec count. */
    method ProcessDoneTasks(nextState: Task -> State) returns (r: Outcome<(), Error>)
      requires Dict.UniqueKeys(taskSubtasks)
      modifies this`remaining, this`specCount, this`taskSubtasks, this`taskQueue, this`resultQueue, step
      ensures resultQueue == [] && Dict.UniqueKeys(taskSubtasks)
      ensures (Snapshot(), r) == DonePass(old(Snapshot()), old(resultQueue), nextState)
      ensures r.Ok? <==> NoneFailed(old(resultQueue))
      ensures r.Err? ==> exists j :: FirstFailed(old(resultQueue), j) && r.error == FailureError(old(resultQueue)[j])
      ensures r.Err? ==> r.error.TaskRunError? || r.error.TaskValidationError? || r.error.StepFailedError?
      ensures old(Counted()) && r.Ok? &&
              (forall j :: 0 <= j < |old(resultQueue)| ==> old(resultQueue)[j].spec.name in old(step.tasks)) ==>
              Counted()
    {
      ghost var b0 := Snapshot();
      var done := GetTaskResults();
      ghost var target := DonePass(b0, done, nextState);
      r := Ok(());
      var i := 0;
      while i < |done|
        invariant 0 <= i <= |done| && resultQueue == [] && r == Ok(())
        invariant DonePass(Snapshot(), done[i..], nextState) == target
      {
        DonePassStep(Snapshot(), done, i, nextState);
        r := ProcessDoneTask(done[i], nextState);
        if r.Err? {
          break;
        }
        i := i + 1;
      }
      if r.Ok? {
        assert done[i..] == [];
      }
      DonePassKeepsUnique(b0, done, nextState);
      DonePassOutcome(b0, done, nextState);
      DonePassFirstFailure(b0, done, nextState);
      if forall j :: 0 <= j < |done| ==> done[j].spec.name in b0.tasks {
        DonePassCounted(b0, done, nextState);
      }
    }

    /** `_process_ready_specs`: build every ready spec into a task and
        enqueue it, stopping at the first build error. The new bookkeeping
        and the outcome are the `ReadyPass` over the ready specs, after the
        blocked ones became the remaining specs; without an error each
        ready spec has become a task under its own name, so the count of
        tasks and remaining specs still agrees with the spec count. */
    method ProcessReadySpecs(build: Spec -> Outcome<Task, Error>) returns (r: Outcome<(), Error>)
      modifies this`remaining, this`taskQueue, step
      ensures remaining == Select(old(step.tasks), old(remaining), false)
      ensures (Snapshot(), r) ==
        ReadyPass(old(Snapshot()).(remaining := remaining), Select(old(step.tasks), old(remaining), true), build)
      ensures r.Err? ==> r.error.TaskDuplicateError? || r.error.TaskBuildError?
      ensures old(Counted()) && r.Ok? ==> Counted()
    {
      ghost var tasks0 := step.tasks;
      var ready := GetReadySpecs();
      SelectCount(tasks0, old(remaining));
      ghost var target := ReadyPass(Snapshot(), ready, build);
      ReadyPassErrors(Snapshot(), ready, build);
      ReadyPassTable(Snapshot(), ready, build);
      for i := 0 to |ready|
        invariant ReadyPass(Snapshot(), ready[i..], build) == target
      {
        var t := BuildSpecIntoTask(ready[i], build);
        if t.Err? {
          return Err(t.error);
        }
        EnqueueTasks([t.value]);
        assert ready[i..][1..] == ready[i + 1..];
      }
      r := Ok(());
    }

    /** `_is_task_finished_waiting_for_subtasks` */
    method IsTaskFinishedWaitingForSubtasks(name: string, subtasks: seq<string>) returns (finished: bool)
      ensures finished == FinishedWaiting(step.tasks, name, subtasks)
    {
      if name !in step.tasks || step.tasks[name].state != WaitingForSubtasks {
        return false;
      }
      var i := 0;
      while i < |subtasks|
        invariant 0 <= i <= |subtasks|
        invariant forall j :: 0 <= j < i ==> subtasks[j] in step.tasks && step.tasks[subtasks[j]].state == Done
      {
        if subtasks[i] !in step.tasks || step.tasks[subtasks[i]].state != Done {
          return false;
        }
        i := i + 1;
      }
      return true;
    }

    /** The body of a completion pass for one tracked parent: when it is
        finished waiting, it advances one state and its manifest is
        upserted; otherwise nothing changes. */
    method CompleteIfFinished(name: string, subtasks: seq<string>, nextState: Task -> State) returns (finished: bool)
      modifies step
      ensures finished == FinishedWaiting(old(step.tasks), name, subtasks)
      ensures finished ==> step.tasks == Advanced(old(step.tasks), name, nextState)
      ensures !finished ==> step.tasks == old(step.tasks) && step.manifest == old(step.manifest)
      ensures finished ==>
        step.manifest == Upserted(old(step.manifest), step.tasks[name].spec.name, step.tasks[name].manifest,
                                  step.tasks[name].artifacts)
    {
      finished := IsTaskFinishedWaitingForSubtasks(name, subtasks);
      if finished {
        var task := step.tasks[name];
        task := task.(state := nextState(task));
        step.tasks := step.tasks[name := task];
        step.UpsertTaskManifest(task);
      }
    }

    /** One pass of `_complete_tasks_waiting_for_subtasks` over the tracked
        parents, in table order, as `Pass` describes it, each completed
        parent's manifest being upserted. A pass that completes nothing has
        found no finished parent. */
    method CompletionPass(nextState: Task -> State) returns (completed: seq<string>)
      requires Dict.UniqueKeys(taskSubtasks)
      modifies step
      ensures (step.tasks, completed) == Pass(old(step.tasks), taskSubtasks, nextState)
      ensures forall j :: 0 <= j < |completed| ==> Dict.HasKey(taskSubtasks, completed[j])
      ensures forall a, b :: 0 <= a < b < |completed| ==> completed[a] != completed[b]
      ensures step.tasks.Keys == old(step.tasks).Keys
      ensures forall n :: n in step.tasks && n !in completed ==> step.tasks[n] == old(step.tasks)[n]
      ensures forall n :: n in completed ==>
        n in old(step.tasks) && old(step.tasks)[n].state == WaitingForSubtasks &&
        step.tasks[n] == old(step.tasks)[n].(state := nextState(old(step.tasks)[n]))
      ensures completed == [] ==>
        (step.tasks == old(step.tasks) &&
         forall i :: 0 <= i < |taskSubtasks| ==> !FinishedWaiting(step.tasks, taskSubtasks[i].0, taskSubtasks[i].1))
    {
      ghost var pass := Pass(step.tasks, taskSubtasks, nextState);
      completed := [];
      var i := 0;
      assert taskSubtasks[0..] == taskSubtasks;
      assert completed + pass.1 == pass.1;
      while i < |taskSubtasks|
        invariant 0 <= i <= |taskSubtasks|
        invariant pass == (Pass(step.tasks, taskSubtasks[i..], nextState).0,
                           completed + Pass(step.tasks, taskSubtasks[i..], nextState).1)
      {
        var (name, subtasks) := taskSubtasks[i];
        assert taskSubtasks[i..][1..] == taskSubtasks[i + 1..];
        ghost var rest := Pass(step.tasks, taskSubtasks[i..], nextState);
        var finished := CompleteIfFinished(name, subtasks, nextState);
        if finished {
          assert completed + rest.1 == (completed + [name]) + Pass(step.tasks, taskSubtasks[i + 1..], nextState).1;
          completed := completed + [name];
        }
        i := i + 1;
      }
      assert taskSubtasks[|taskSubtasks|..] == [];
      assert completed + [] == completed;
      PassCompletesTracked(old(step.tasks), taskSubtasks, nextState);
      PassAdvancesCompleted(old(step.tasks), taskSubtasks, nextState);
      if completed == [] {
        PassNothingFinished(old(step.tasks), taskSubtasks, nextState);
      }
      forall j | 0 <= j < |completed| ensures Dict.HasKey(taskSubtasks, completed[j]) {
        var keys := Dict.Keys(taskSubtasks);
        var p :| 0 <= p < |keys| && keys[p] == completed[j];
      }
    }

    /** The removal of the completed parents from the subtask table. */
    method Untrack(names: seq<string>)
      requires Dict.UniqueKeys(taskSubtasks)
      requires forall j :: 0 <= j < |names| ==> Dict.HasKey(taskSubtasks, names[j])
      requires forall a, b :: 0 <= a < b < |names| ==> names[a] != names[b]
      modifies this`taskSubtasks
      ensures Dict.UniqueKeys(taskSubtasks)
      ensures names == [] ==> taskSubtasks == old(taskSubtasks)
      ensures names != [] ==> |taskSubtasks| < |old(taskSubtasks)|
      ensures forall n :: Dict.HasKey(taskSubtasks, n) <==> Dict.HasKey(old(taskSubtasks), n) && n !in names
    {
      for i := 0 to |names|
        invariant Dict.UniqueKeys(taskSubtasks)
        invariant i == 0 ==> taskSubtasks == old(taskSubtasks)
        invariant i > 0 ==> |taskSubtasks| < |old(taskSubtasks)|
        invariant |taskSubtasks| <= |old(taskSubtasks)|
        invariant forall j :: i <= j < |names| ==> Dict.HasKey(taskSubtasks, names[j])
        invariant forall n :: Dict.HasKey(taskSubtasks, n) <==> Dict.HasKey(old(taskSubtasks), n) && n !in names[..i]
      {
        ghost var before := taskSubtasks;
        taskSubtasks := Dict.Remove(taskSubtasks, names[i]);
        Dict.RemoveUnique(before, names[i]);
        forall n ensures Dict.HasKey(taskSubtasks, n) <==> Dict.HasKey(before, n) && n != names[i] {
          Dict.RemoveHasKey(before, names[i], n);
        }
        assert names[..i + 1] == names[..i] + [names[i]];
      }
      assert names[..|names|] == names;
    }

    /** `_complete_tasks_waiting_for_subtasks`: passes until one completes
        nothing; the parents completed leave the subtask table, which
        therefore shrinks with every further pass. Returns the names of the
        completed parents. On return no tracked parent is finished, each
        completed parent was WAITING_FOR_SUBTASKS and advanced exactly once,
        and every other task is as it was. */
    method CompleteTasksWaitingForSubtasks(nextState: Task -> State) returns (done: seq<string>)
      requires Dict.UniqueKeys(taskSubtasks)
      modifies this`taskSubtasks, step
      decreases |taskSubtasks|
      ensures Dict.UniqueKeys(taskSubtasks)
      ensures forall i :: 0 <= i < |taskSubtasks| ==> !FinishedWaiting(step.tasks, taskSubtasks[i].0, taskSubtasks[i].1)
      ensures forall n :: Dict.HasKey(taskSubtasks, n) <==> Dict.HasKey(old(taskSubtasks), n) && n !in done
      ensures forall n :: n in done ==> Dict.HasKey(old(taskSubtasks), n)
      ensures step.tasks.Keys == old(step.tasks).Keys
      ensures forall n :: n in step.tasks && n !in done ==> step.tasks[n] == old(step.tasks)[n]
      ensures forall n :: n in done ==>
        n in old(step.tasks) && old(step.tasks)[n].state == WaitingForSubtasks &&
        step.tasks[n] == old(step.tasks)[n].(state := nextState(old(step.tasks)[n]))
    {
      var completed := CompletionPass(nextState);
      Untrack(completed);
      if completed == [] {
        return [];
      }
      var rest := CompleteTasksWaitingForSubtasks(nextState);
      done := completed + rest;
    }

    /** The workers' share of one polling interval: `n` tasks (or as many
        as are queued) are taken from the front of the task queue, executed
        without an abort, and put on the result queue in order. */
    method RunWorkers(n: nat, nextState: Task -> State, execute: Task -> Task)
      modifies this`taskQueue, this`resultQueue
      ensures var k := if n < |old(taskQueue)| then n else |old(taskQueue)|;
        taskQueue == old(taskQueue)[k..] &&
        resultQueue == old(resultQueue) + Executed(old(taskQueue)[..k], nextState, execute)
    {
      var k := if n < |taskQueue| then n else |taskQueue|;
      ghost var queued := taskQueue;
      for i := 0 to k
        invariant taskQueue == queued[i..]
        invariant resultQueue == old(resultQueue) + Executed(queued[..i], nextState, execute)
      {
        var t, _ := Worker.ExecuteTask(taskQueue[0], false, false, nextState, execute, execute);
        assert queued[..i + 1][..i] == queued[..i] && queued[..i + 1][i] == taskQueue[0];
        resultQueue := resultQueue + [t];
        taskQueue := taskQueue[1..];
      }
    }

    /** `run`: until the step is complete, process the done tasks, complete
        the parents whose subtasks are done and build the ready specs, while
        the workers execute `picks[i]` queued tasks during the i-th polling
        interval. The first error ends the loop, its text becomes the
        failure reason and the workers are killed; a complete step stops
        them instead. Either way `finish` is called with keyword arguments
        it does not accept, so the call raises a TypeError. With the trace
        spent and the step still incomplete the run goes on (None). */
    method Run(picks: seq<nat>, nextState: Task -> State, execute: Task -> Task,
               build: Spec -> Outcome<Task, Error>, describe: Error -> string)
      returns (r: Option<RunEnd>, caught: Option<Error>)
      requires Dict.UniqueKeys(taskSubtasks)
      modifies this, step
      ensures r.None? ==> !StepComplete(step.tasks, specCount) && caught.None?
      ensures r.Some? ==> r.value.raised == TypeError && r.value.result == StepResult(step.tasks, specCount)
      ensures r.Some? ==> r.value.failureReason == (if caught.Some? then Some(describe(caught.value)) else None)
      ensures r.Some? ==> (r.value.workers == Killed <==> caught.Some?)
      ensures r.Some? && caught.None? ==> StepComplete(step.tasks, specCount) && r.value.result != Pending
      ensures caught.Some? ==>
        (caught.value.TaskRunError? || caught.value.TaskValidationError? || caught.value.StepFailedError? ||
         caught.value.TaskDuplicateError? || caught.value.TaskBuildError?)
    {
      var i := 0;
      caught := None;
      while true
        invariant 0 <= i <= |picks| && caught.None? && Dict.UniqueKeys(taskSubtasks)
        decreases |picks| - i
      {
        if IsStepComplete() {
          break;
        }
        if i == |picks| {
          return None, None;
        }
        var e := ProcessDoneTasks(nextState);
        if e.Err? {
          caught := Some(e.error);
          break;
        }
        var _ := CompleteTasksWaitingForSubtasks(nextState);
        e := ProcessReadySpecs(build);
        if e.Err? {
          caught := Some(e.error);
          break;
        }
        RunWorkers(picks[i], nextState, execute);
        i := i + 1;
      }
      var failureReason := if caught.Some? then Some(describe(caught.value)) else None;
      var workers := if caught.Some? then Killed else Stopped;
      r := Some(RunEnd(StepResult(step.tasks, specCount), failureReason, workers, TypeError));
    }
  }
}
