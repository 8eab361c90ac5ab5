/** The manifest manager of a runner: it loads the manifest (remote, then
    local, then a fresh one), puts a step's manifest into it, recomputes the
    root result, and saves it locally and to the release, retrying the
    upload when another runner got there first. */
module ManifestManager {
  import opened Wrappers
  import opened Errors
  import opened ManifestModel
  import StepModel
  import Dict

  /** The local manifest file in the work path. */
  datatype LocalFile = Missing | Unreadable(errno: int) | Present(text: string)

  /** What another runner does to the remote manifest before an upload. */
  datatype RemoteEvent = Calm | Overwritten(content: string) | Outage

  /** How a local save goes: through, or an OSError (or a lock Timeout)
      carrying `errno`, raised before the text is written (taking the lock,
      writing) or after it (releasing the lock, removing the lock file). */
  datatype LocalSave = Saved | FailedBeforeWrite(errno: int) | FailedAfterWrite(errno: int)

  /** Either a step name or a step. */
  datatype StepRef = Named(name: string) | Of(step: StepModel.Step)

  /** The remote manifest stored in a store with generation preconditions:
      absent, or a content with its generation. */
  class ManifestObject {
    var stored: Option<(string, int)>

    constructor (stored: Option<(string, int)>)
      ensures this.stored == stored
    {
      this.stored := stored;
    }

    /** An upload conditioned on `generation` is accepted iff the stored's
        generation is that number, 0 standing for an absent stored. */
    predicate Accepts(generation: int)
      reads this
    {
      if generation == 0 then stored.None? else stored.Some? && stored.value.1 == generation
    }

    /** The generation the next write gets. */
    function NextGeneration(): (g: int)
      reads this
      ensures stored.Some? ==> g > stored.value.1
    {
      if stored.None? then 1 else stored.value.1 + 1
    }
  }

  /** `_load_local` on the local file: a missing file gives None; an OS
      error exits with its errno; text that does not decode exits with EIO;
      a manifest that does not validate exits with EINVAL. */
  function LoadLocal(local: LocalFile, parse: string -> Option<RootManifest>, decodable: string -> bool)
    : (r: Outcome<Option<RootManifest>, Error>)
    ensures local.Missing? <==> r == Ok(None)
    ensures r.Ok? && r.value.Some? ==> local.Present? && Some(r.value.value) == parse(local.text)
    ensures r.Err? ==> r.error.SystemExit?
  {
    match local
    case Missing => Ok(None)
    case Unreadable(errno) => Err(SystemExit(errno))
    case Present(text) =>
      if !decodable(text) then Err(SystemExit(EIO))
      else if parse(text).None? then Err(SystemExit(EINVAL))
      else Ok(parse(text))
  }

  /** The manifest a manager starts with: the first of the remote and the
      local one that exists, else the fresh one; an error on the way ends
      the search. */
  function FirstFound(remote: Outcome<Option<RootManifest>, Error>, local: Outcome<Option<RootManifest>, Error>,
                      empty: RootManifest): (r: Outcome<RootManifest, Error>)
    ensures remote.Ok? && remote.value.Some? ==> r == Ok(remote.value.value)
    ensures remote == Ok(None) && local.Ok? && local.value.Some? ==> r == Ok(local.value.value)
    ensures remote == Ok(None) && local == Ok(None) ==> r == Ok(empty)
    ensures r.Err? ==>
      (remote.Err? && r == Err(remote.error)) || (remote == Ok(None) && local.Err? && r == Err(local.error))
  {
    if remote.Err? then Err(remote.error)
    else if remote.value.Some? then Ok(remote.value.value)
    else if local.Err? then Err(local.error)
    else if local.value.Some? then Ok(local.value.value)
    else Ok(empty)
  }

  /** `_refresh_from_remote` as written: the manifest it reloads is thrown
      away, and the relevant step is put into the manifest held so far. */
  function RefreshedAsWritten(held: RootManifest, reloaded: Option<RootManifest>, key: string, sm: StepManifest)
    : RootManifest
  {
    WithStep(held, key, sm)
  }

  /** The refresh evidently intended: the relevant step put into the
      manifest just reloaded from the release (or into the one held, when
      the release has none). */
  function RefreshedMerged(held: RootManifest, reloaded: Option<RootManifest>, key: string, sm: StepManifest)
    : RootManifest
  {
    WithStep(reloaded.GetOr(held), key, sm)
  }

  /** After the intended refresh the relevant step is the one put in, and
      every other step is as the release had it. */
  lemma RefreshedMergedKeepsRelease(held: RootManifest, reloaded: RootManifest, key: string, sm: StepManifest)
    requires Dict.UniqueKeys(reloaded.steps)
    ensures var m := RefreshedMerged(held, Some(reloaded), key, sm);
      Dict.Get(m.steps, key) == Some(sm) &&
      forall k :: k != key ==> Dict.Get(m.steps, k) == Dict.Get(reloaded.steps, k)
  {
  }

  /** The refresh as written loses a step another runner put into the
      release: here the reloaded manifest holds `r_other`, the held one does
      not, and neither does the manifest uploaded next. */
  lemma RefreshLosesOtherRunnersStep()
    ensures var held := RootManifest(Pending, []);
      var other := StepManifest("other", Success, [], []);
      var reloaded := Some(RootManifest(Success, [("r_other", other)]));
      var sm := StepManifest("mine", Success, [], []);
      Dict.Get(reloaded.value.steps, "r_other") == Some(other) &&
      Dict.Get(RefreshedAsWritten(held, reloaded, "r_mine", sm).steps, "r_other") == None &&
      Dict.Get(RefreshedMerged(held, reloaded, "r_mine", sm).steps, "r_other") == Some(other)
  {
    var other := StepManifest("other", Success, [], []);
    var sm := StepManifest("mine", Success, [], []);
    var reloaded := Some(RootManifest(Success, [("r_other", other)]));
    var lost := RefreshedAsWritten(RootManifest(Pending, []), reloaded, "r_mine", sm);
    assert lost.steps == [("r_mine", sm)];
    assert !Dict.HasKey(lost.steps, "r_other") by {
      assert lost.steps[0].0 != "r_other";
    }
  }

  class ManifestManager {
    const runnerName: string
    const steps: seq<string>
    const releaseUri: string
    const store: ManifestObject
    var relevantStep: StepModel.Step
    var revision: int
    var manifest: RootManifest
    var local: LocalFile

    /** The fields `__init__` sets before loading; `Initialize` is the
        loading. */
    constructor (runnerName: string, relevantStep: StepModel.Step, steps: seq<string>, releaseUri: string,
                 store: ManifestObject, local: LocalFile)
      ensures this.runnerName == runnerName && this.relevantStep == relevantStep && this.steps == steps
      ensures this.releaseUri == releaseUri && this.store == store && this.local == local
      ensures revision == 0 && manifest == RootManifest(Pending, [])
    {
      this.runnerName, this.relevantStep, this.steps := runnerName, relevantStep, steps;
      this.releaseUri, this.store, this.local := releaseUri, store, local;
      revision := 0;
      manifest := RootManifest(Pending, []);
    }

    /** `manifest_step_name`: the runner name, '_', and the step's name. */
    function ManifestStepName(step: StepRef): (key: string)
      ensures key == StepKey(runnerName, if step.Named? then step.name else step.step.name)
    {
      var name := if step.Named? then step.name else step.step.name;
      runnerName + "_" + name
    }

    /** A step and its name have the same key, and the keys of distinct
        step names differ. */
    lemma ManifestStepNameOfStep(s: StepModel.Step, other: string)
      ensures ManifestStepName(Of(s)) == ManifestStepName(Named(s.name))
      ensures other != s.name ==> ManifestStepName(Named(other)) != ManifestStepName(Of(s))
    {
      if ManifestStepName(Named(other)) == ManifestStepName(Of(s)) {
        StepKeyInjective(runnerName, other, s.name);
      }
    }

    /** What `_load_remote` gives for the current remote stored. */
    function RemoteView(parse: string -> Option<RootManifest>, decodable: string -> bool)
      : (r: Outcome<Option<RootManifest>, Error>)
      reads store
      ensures releaseUri == "" || store.stored.None? <==> r == Ok(None)
      ensures r.Err? ==> r.error == SystemExit(EIO) || r.error == SystemExit(EINVAL)
    {
      if releaseUri == "" || store.stored.None? then Ok(None)
      else if !decodable(store.stored.value.0) then Err(SystemExit(EIO))
      else if parse(store.stored.value.0).None? then Err(SystemExit(EINVAL))
      else Ok(parse(store.stored.value.0))
    }

    /** `_load_remote`: without a release nothing is read; a missing stored
        gives None; a read stored sets the revision to its generation; a
        decoding failure exits with EIO, an invalid manifest with EINVAL. */
    method LoadRemote(parse: string -> Option<RootManifest>, decodable: string -> bool)
      returns (r: Outcome<Option<RootManifest>, Error>)
      modifies this`revision
      ensures r == RemoteView(parse, decodable)
      ensures revision == if releaseUri != "" && store.stored.Some? && decodable(store.stored.value.0)
                          then store.stored.value.1 else old(revision)
    {
      if releaseUri == "" {
        return Ok(None);
      }
      if store.stored.None? {
        return Ok(None);
      }
      var (text, generation) := store.stored.value;
      if !decodable(text) {
        return Err(SystemExit(EIO));
      }
      revision := generation;
      var parsed := parse(text);
      if parsed.None? {
        return Err(SystemExit(EINVAL));
      }
      r := Ok(parsed);
    }

    /** `_create_empty` */
    method CreateEmptyManifest() returns (m: RootManifest)
      ensures m == EmptyOf(runnerName, steps)
      ensures m.result == Pending && Dict.UniqueKeys(m.steps)
      ensures forall i :: 0 <= i < |steps| ==>
        Dict.Get(m.steps, ManifestStepName(Named(steps[i]))) == Some(NewStepManifest(steps[i]))
    {
      m := CreateEmpty(runnerName, steps);
    }

    /** The loading in `__init__`: the remote manifest, else the local one,
        else a fresh one. */
    method Initialize(parse: string -> Option<RootManifest>, decodable: string -> bool)
      returns (r: Outcome<(), Error>)
      modifies this`revision, this`manifest
      ensures var found := FirstFound(old(RemoteView(parse, decodable)), LoadLocal(local, parse, decodable),
                                      EmptyOf(runnerName, steps));
        (r.Ok? <==> found.Ok?) && (r.Ok? ==> manifest == found.value) && (r.Err? ==> r.error == found.error)
    {
      var remote := LoadRemote(parse, decodable);
      if remote.Err? {
        return Err(remote.error);
      }
      if remote.value.Some? {
        manifest := remote.value.value;
        return Ok(());
      }
      var fromLocal := LoadLocal(local, parse, decodable);
      if fromLocal.Err? {
        return Err(fromLocal.error);
      }
      if fromLocal.value.Some? {
        manifest := fromLocal.value.value;
        return Ok(());
      }
      manifest := CreateEmptyManifest();
      r := Ok(());
    }

    /** `_check_steps`: the root result is the roll-up of the step results. */
    method CheckSteps()
      modifies this`manifest
      ensures manifest == old(manifest).(result := Rollup(Results(old(manifest).steps)))
    {
      var i := 0;
      var anyFailed := false;
      var allSucceeded := true;
      while i < |manifest.steps|
        invariant 0 <= i <= |manifest.steps|
        invariant anyFailed <==> exists j :: 0 <= j < i && Failed(manifest.steps[j].1.result)
        invariant allSucceeded <==> forall j :: 0 <= j < i ==> manifest.steps[j].1.result == Success
      {
        if Failed(manifest.steps[i].1.result) {
          anyFailed := true;
        }
        if manifest.steps[i].1.result != Success {
          allSucceeded := false;
        }
        i := i + 1;
      }
      var rs := Results(manifest.steps);
      var result := if anyFailed then Failure else if allSucceeded then Success else Pending;
      assert result == Rollup(rs) by {
        assert forall j :: 0 <= j < |rs| ==> rs[j] == manifest.steps[j].1.result;
      }
      manifest := manifest.(result := result);
    }

    /** `_update_step`: the step becomes the relevant one, its manifest
        replaces its entry (or is appended) and the root result is
        recomputed. */
    method UpdateStep(step: StepModel.Step)
      modifies this`manifest, this`relevantStep
      ensures relevantStep == step
      ensures manifest == WithStep(old(manifest), ManifestStepName(Of(step)), step.manifest)
    {
      relevantStep := step;
      var key := ManifestStepName(Of(step));
      manifest := manifest.(steps := Dict.Put(manifest.steps, key, step.manifest));
      CheckSteps();
    }

    /** `_save_local`: under the lock, the serialized manifest becomes the
        local file. An OSError or a lock Timeout exits with its errno; the
        file is written only when the failure comes after the write. */
    method SaveLocal(serialize: RootManifest -> string, outcome: LocalSave) returns (r: Outcome<(), Error>)
      modifies this`local
      ensures r.Ok? <==> outcome.Saved?
      ensures r.Err? ==> r.error == SystemExit(outcome.errno)
      ensures local == if outcome.FailedBeforeWrite? then old(local) else Present(serialize(manifest))
    {
      var text := serialize(manifest);
      if outcome.FailedBeforeWrite? {
        return Err(SystemExit(outcome.errno));
      }
      local := Present(text);
      if outcome.FailedAfterWrite? {
        return Err(SystemExit(outcome.errno));
      }
      r := Ok(());
    }

    /** `_refresh_from_remote`: reload the remote manifest (which sets the
        revision), put the relevant step into the manifest and save it
        locally. The source drops the reloaded manifest (`RefreshedAsWritten`);
        this model adopts it before putting the step in, as evidently
        intended (`RefreshedMerged`). */
    method RefreshFromRemote(parse: string -> Option<RootManifest>, decodable: string -> bool,
                             serialize: RootManifest -> string, save: LocalSave)
      returns (r: Outcome<(), Error>)
      modifies this`revision, this`manifest, this`local, this`relevantStep
      ensures relevantStep == old(relevantStep)
      ensures r.Ok? <==> old(RemoteView(parse, decodable)).Ok? && save.Saved?
      ensures r.Err? ==> r.error == SystemExit(EIO) || r.error == SystemExit(EINVAL) ||
                         (!save.Saved? && r.error == SystemExit(save.errno))
      ensures r.Ok? ==>
        (old(RemoteView(parse, decodable)).Ok? &&
         manifest == RefreshedMerged(old(manifest), old(RemoteView(parse, decodable)).value,
                                        ManifestStepName(Of(relevantStep)), relevantStep.manifest) &&
         local == Present(serialize(manifest)))
      ensures r.Ok? && releaseUri != "" && store.stored.Some? ==> revision == store.stored.value.1
    {
      ghost var held := manifest;
      ghost var key := ManifestStepName(Of(relevantStep));
      var reloaded := LoadRemote(parse, decodable);
      if reloaded.Err? {
        return Err(reloaded.error);
      }
      if reloaded.value.Some? {
        manifest := reloaded.value.value;
      }
      assert manifest == reloaded.value.GetOr(held);
      UpdateStep(relevantStep);
      assert manifest == RefreshedMerged(held, reloaded.value, key, relevantStep.manifest);
      r := SaveLocal(serialize, save);
    }

    /** `_save_remote`: without a release nothing happens. Otherwise upload
        the local file conditioned on the revision until it is accepted;
        each refusal refreshes from the release and tries again, and any
        other storage error exits with EIO. `events[k]` is what other
        runners do before upload `k` and `saves[k]` how the local save of
        the refresh after it goes; after the traces the other runners keep
        still and saves go through, and a refusal then leaves the loop still
        retrying (None). */
    method SaveRemote(events: seq<RemoteEvent>, saves: seq<LocalSave>, parse: string -> Option<RootManifest>,
                      decodable: string -> bool, serialize: RootManifest -> string)
      returns (r: Option<Outcome<(), Error>>, uploads: nat)
      modifies this`revision, this`manifest, this`local, this`relevantStep, store
      ensures relevantStep == old(relevantStep)
      ensures releaseUri == "" ==>
        (r == Some(Ok(())) && uploads == 0 && store.stored == old(store.stored) &&
         manifest == old(manifest) && local == old(local))
      ensures r == Some(Ok(())) && releaseUri != "" ==>
        local.Present? && store.stored.Some? && store.stored.value.0 == local.text
      ensures r.Some? && r.value.Err? ==>
        r.value.error in {SystemExit(EIO), SystemExit(EINVAL), ValueError} ||
        exists k :: 0 <= k < |saves| && !saves[k].Saved? && r.value.error == SystemExit(saves[k].errno)
      ensures r.Some? && r.value.Err? && old(local).Present? ==> r.value.error != ValueError
      ensures uploads <= |events| + 1
      ensures (releaseUri != "" && old(local).Present? && old(store.Accepts(revision)) &&
               forall k :: 0 <= k < |events| ==> events[k].Calm?) ==>
        (r == Some(Ok(())) && uploads == 1 && store.stored.value.0 == old(local).text && manifest == old(manifest))
    {
      uploads := 0;
      if releaseUri == "" {
        return Some(Ok(())), 0;
      }
      ghost var quiet := forall k :: 0 <= k < |events| ==> events[k].Calm?;
      while uploads <= |events|
        invariant uploads <= |events| + 1
        invariant relevantStep == old(relevantStep)
        invariant old(local).Present? ==> local.Present?
        invariant quiet && old(store.Accepts(revision)) && old(local).Present? ==>
          (uploads == 0 && store.stored == old(store.stored) &&
           revision == old(revision) && manifest == old(manifest) && local == old(local))
        decreases |events| + 1 - uploads
      {
        var event := if uploads < |events| then events[uploads] else Calm;
        match event {
          case Calm =>
          case Overwritten(content) => store.stored := Some((content, store.NextGeneration()));
          case Outage =>
        }
        uploads := uploads + 1;
        if !local.Present? {
          return Some(Err(ValueError)), uploads;
        }
        if event.Outage? {
          return Some(Err(SystemExit(EIO))), uploads;
        }
        if store.Accepts(revision) {
          store.stored := Some((local.text, store.NextGeneration()));
          return Some(Ok(())), uploads;
        }
        var save := if uploads - 1 < |saves| then saves[uploads - 1] else Saved;
        var refreshed := RefreshFromRemote(parse, decodable, serialize, save);
        if refreshed.Err? {
          return Some(Err(refreshed.error)), uploads;
        }
      }
      r := None;
    }

    /** `complete`: put the step into the manifest, save it locally (as
        `save` says) and to the release, and return the step's result (None
        while the upload is still being retried). */
    method Complete(step: StepModel.Step, save: LocalSave, events: seq<RemoteEvent>, saves: seq<LocalSave>,
                    parse: string -> Option<RootManifest>, decodable: string -> bool,
                    serialize: RootManifest -> string)
      returns (r: Option<Outcome<Result, Error>>)
      modifies this`revision, this`manifest, this`local, this`relevantStep, store
      ensures relevantStep == step
      ensures r.Some? && r.value.Ok? ==> r.value.value == step.manifest.result && save.Saved?
      ensures !save.Saved? ==> r == Some(Err(SystemExit(save.errno))) && store.stored == old(store.stored)
      ensures r.Some? && r.value.Err? ==>
        r.value.error in {SystemExit(EIO), SystemExit(EINVAL)} ||
        (!save.Saved? && r.value.error == SystemExit(save.errno)) ||
        exists k :: 0 <= k < |saves| && !saves[k].Saved? && r.value.error == SystemExit(saves[k].errno)
      ensures releaseUri == "" && save.Saved? ==>
        (r == Some(Ok(step.manifest.result)) &&
         manifest == WithStep(old(manifest), ManifestStepName(Of(step)), step.manifest) &&
         local == Present(serialize(manifest)) && store.stored == old(store.stored))
    {
      UpdateStep(step);
      var savedLocally := SaveLocal(serialize, save);
      if savedLocally.Err? {
        return Some(Err(savedLocally.error));
      }
      var saved, _ := SaveRemote(events, saves, parse, decodable, serialize);
      if saved.None? {
        return None;
      }
      if saved.value.Err? {
        return Some(Err(saved.value.error));
      }
      r := Some(Ok(step.manifest.result));
    }
  }
}
