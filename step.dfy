/** A step of the pipeline: its manifest and the table of its tasks. */
module StepModel {
  import opened Wrappers
  import opened ManifestModel
  import opened TaskModel

  /** The index of the first task manifest named `name`. */
  function FindTask(ts: seq<TaskManifest>, name: string): (r: Option<nat>)
    ensures r.Some? ==> r.value < |ts| && ts[r.value].name == name
    ensures r.Some? ==> forall j :: 0 <= j < r.value ==> ts[j].name != name
    ensures r.None? ==> forall j :: 0 <= j < |ts| ==> ts[j].name != name
  {
    if ts == [] then None
    else if ts[0].name == name then Some(0)
    else match FindTask(ts[1..], name)
      case Some(i) => Some(i + 1)
      case None => None
  }

  /** The step manifest after upserting a task's manifest: the first entry
      with the task's name is replaced, and the task's artifacts (if any)
      are added to the step's; a task not yet listed is appended. */
  function Upserted(m: StepManifest, name: string, tm: TaskManifest, artifacts: seq<Artifact>): StepManifest {
    match FindTask(m.tasks, name)
    case Some(i) => m.(tasks := m.tasks[i := tm], artifacts := if artifacts != [] then m.artifacts + artifacts else m.artifacts)
    case None => m.(tasks := m.tasks + [tm])
  }

  /** Task-manifest names are pairwise distinct. */
  predicate UniqueNames(ts: seq<TaskManifest>) {
    forall i, j :: 0 <= i < j < |ts| ==> ts[i].name != ts[j].name
  }

  /** Upserting under a listed name replaces that entry in place: same
      length, the entry replaced, every other entry unchanged, and the
      artifacts extended only when the task brings some. */
  lemma UpsertPresent(m: StepManifest, name: string, tm: TaskManifest, artifacts: seq<Artifact>, i: nat)
    requires i < |m.tasks| && m.tasks[i].name == name && UniqueNames(m.tasks)
    ensures var u := Upserted(m, name, tm, artifacts);
      |u.tasks| == |m.tasks| && u.tasks[i] == tm &&
      (forall j :: 0 <= j < |m.tasks| && j != i ==> u.tasks[j] == m.tasks[j]) &&
      u.artifacts == m.artifacts + artifacts && u.name == m.name && u.result == m.result
  {
    var f := FindTask(m.tasks, name);
    assert f == Some(i) by {
      if f.Some? && f.value != i {
        assert m.tasks[f.value].name == m.tasks[i].name;
      }
    }
  }

  /** Upserting under an unlisted name appends the manifest and nothing
      else. */
  lemma UpsertAbsent(m: StepManifest, name: string, tm: TaskManifest, artifacts: seq<Artifact>)
    requires forall j :: 0 <= j < |m.tasks| ==> m.tasks[j].name != name
    ensures var u := Upserted(m, name, tm, artifacts);
      u.tasks == m.tasks + [tm] && |u.tasks| == |m.tasks| + 1 && u.artifacts == m.artifacts
  {
  }

  /** Distinct task-manifest names stay distinct after an upsert of a
      manifest under its own name. */
  lemma UpsertKeepsUnique(m: StepManifest, tm: TaskManifest, artifacts: seq<Artifact>)
    requires UniqueNames(m.tasks)
    ensures UniqueNames(Upserted(m, tm.name, tm, artifacts).tasks)
  {
    var u := Upserted(m, tm.name, tm, artifacts).tasks;
    match FindTask(m.tasks, tm.name)
    case Some(i) =>
      forall a, b | 0 <= a < b < |u| ensures u[a].name != u[b].name {
        if a == i {
          assert u[b] == m.tasks[b];
        } else if b == i {
          assert u[a] == m.tasks[a];
        }
      }
    case None =>
      forall a, b | 0 <= a < b < |u| ensures u[a].name != u[b].name {
        if b == |m.tasks| {
          assert u[a] == m.tasks[a];
        }
      }
  }

  /** The result `finish` gives a step: SUCCESS iff every task manifest is
      SUCCESS (so also with no tasks), FAILURE otherwise. */
  function FinishResult(ts: seq<TaskManifest>): (r: Result)
    ensures r == Success <==> forall i :: 0 <= i < |ts| ==> ts[i].result == Success
    ensures r != Success ==> r == Failure
  {
    if ts == [] then Success
    else if ts[0].result == Success then
      var rest := FinishResult(ts[1..]);
      assert forall i :: 1 <= i < |ts| ==> ts[i] == ts[1..][i - 1];
      rest
    else Failure
  }

  /** `finish` never leaves a step PENDING: a task still PENDING makes the
      step FAILURE, where the manifest roll-up of the same results would
      say PENDING. Both agree on SUCCESS. */
  lemma FinishAgainstRollup(ts: seq<TaskManifest>, rs: seq<Result>)
    requires |rs| == |ts| && forall i :: 0 <= i < |ts| ==> rs[i] == ts[i].result
    ensures FinishResult(ts) == Success <==> Rollup(rs) == Success
    ensures Rollup(rs) == Pending ==> FinishResult(ts) == Failure
  {
  }

  class Step {
    const name: string
    const specs: seq<Spec>
    var manifest: StepManifest
    var tasks: map<string, Task>

    constructor (name: string, specs: seq<Spec>)
      ensures this.name == name && this.specs == specs
      ensures manifest == NewStepManifest(name) && tasks == map[]
    {
      this.name := name;
      this.specs := specs;
      manifest := NewStepManifest(name);
      tasks := map[];
    }

    /** `upsert_task_manifest`: scan the task manifests for the task's name,
        replacing the first match in place and stopping, or append. */
    method UpsertTaskManifest(task: Task)
      modifies this`manifest
      ensures manifest == Upserted(old(manifest), task.spec.name, task.manifest, task.artifacts)
    {
      var inserted := false;
      var i := 0;
      while i < |manifest.tasks|
        invariant 0 <= i <= |manifest.tasks|
        invariant manifest == old(manifest)
        invariant forall j :: 0 <= j < i ==> manifest.tasks[j].name != task.spec.name
      {
        if manifest.tasks[i].name == task.spec.name {
          manifest := manifest.(tasks := manifest.tasks[i := task.manifest]);
          if task.artifacts != [] {
            manifest := manifest.(artifacts := manifest.artifacts + task.artifacts);
          }
          inserted := true;
          break;
        }
        i := i + 1;
      }
      if !inserted {
        manifest := manifest.(tasks := manifest.tasks + [task.manifest]);
      }
    }

    /** `finish(tasks)`: the step result from its task manifests; the
        argument is not used. */
    method Finish(finishedTasks: map<string, Task>)
      modifies this`manifest
      ensures manifest == old(manifest).(result := FinishResult(old(manifest).tasks))
    {
      manifest := manifest.(result := FinishResult(manifest.tasks));
    }
  }
}
