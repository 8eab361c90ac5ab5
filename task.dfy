/** Specs and tasks as the step runner sees them. A task carries its spec,
    the state of its lifecycle, its manifest, the specs it generated and its
    artifacts. Tasks cross process boundaries as copies, so they are values
    here; the task state machine itself lives outside this model and is
    passed in as a function. */
module TaskModel {
  import opened ManifestModel

  /** The lifecycle states the step runner distinguishes. */
  datatype State = PendingRun | Running | PendingValidation | Validating | WaitingForSubtasks | Done

  datatype Spec = Spec(name: string, dependsOn: seq<string>)  // the names in `requires`

  datatype Task = Task(
    spec: Spec,
    state: State,
    manifest: TaskManifest,
    specs: seq<Spec>,           // specs generated while running
    artifacts: seq<Artifact>,
    abortAttached: bool)        // the abort event has been put in the context

  /** The names of a list of specs, in order. */
  function Names(specs: seq<Spec>): (ns: seq<string>)
    ensures |ns| == |specs|
    ensures forall i :: 0 <= i < |specs| ==> ns[i] == specs[i].name
  {
    if specs == [] then [] else [specs[0].name] + Names(specs[1..])
  }
}
