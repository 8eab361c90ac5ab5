/** The manifest: the record of a run's result per step, stored as one
    document next to the release, and its read-modify-write update guarded
    by an optimistic revision check. */
module ManifestModel {
  import opened Wrappers
  import opened Errors
  import Dict
  import Filesystem

  datatype Result = Pending | Success | Failure | Aborted

  /** FAILURE and ABORTED both count as a failed outcome for the roll-up. */
  predicate Failed(r: Result) {
    r == Failure || r == Aborted
  }

  datatype Artifact = Artifact(source: string, destination: string)

  datatype TaskManifest = TaskManifest(name: string, result: Result, failureReason: string, artifacts: seq<Artifact>)

  datatype StepManifest = StepManifest(name: string, result: Result, tasks: seq<TaskManifest>, artifacts: seq<Artifact>)

  datatype RootManifest = RootManifest(result: Result, steps: Dict.Dict<string, StepManifest>)

  const ManifestFilename := "manifest.json"

  /** A fresh step entry: PENDING, no tasks, no artifacts. */
  function NewStepManifest(name: string): StepManifest {
    StepManifest(name, Pending, [], [])
  }

  /** The key of a step in the manifest: the runner name, '_', the step name. */
  function StepKey(runnerName: string, step: string): string
  {
    runnerName + "_" + step
  }

  /** For one runner, distinct steps get distinct keys. */
  lemma StepKeyInjective(runnerName: string, a: string, b: string)
    requires StepKey(runnerName, a) == StepKey(runnerName, b)
    ensures a == b
  {
    assert a == StepKey(runnerName, a)[|runnerName| + 1..];
    assert b == StepKey(runnerName, b)[|runnerName| + 1..];
  }

  /** The results of the entries of a step table, in order. */
  function Results(steps: Dict.Dict<string, StepManifest>): (rs: seq<Result>)
    ensures |rs| == |steps|
    ensures forall i :: 0 <= i < |steps| ==> rs[i] == steps[i].1.result
  {
    if steps == [] then [] else [steps[0].1.result] + Results(steps[1..])
  }

  /** The roll-up of step results into the root result, as a left-to-right
      combination. Its contract is the rule the manifest applies: FAILURE if
      any result failed or aborted; otherwise SUCCESS if all succeeded (so
      also with no steps); otherwise PENDING. */
  function Rollup(rs: seq<Result>): (r: Result)
    ensures r == Failure <==> exists i :: 0 <= i < |rs| && Failed(rs[i])
    ensures r == Success <==> forall i :: 0 <= i < |rs| ==> rs[i] == Success
    ensures r != Aborted
  {
    if rs == [] then Success
    else
      var rest := Rollup(rs[1..]);
      assert forall i :: 1 <= i < |rs| ==> rs[i] == rs[1..][i - 1];
      if Failed(rs[0]) || rest == Failure then Failure
      else if rs[0] == Success && rest == Success then Success
      else Pending
  }

  /** The roll-up does not depend on the order of the steps. */
  lemma {:induction false} RollupOrderFree(rs: seq<Result>, ts: seq<Result>)
    requires multiset(rs) == multiset(ts)
    ensures Rollup(rs) == Rollup(ts)
  {
    forall x | x in rs ensures x in ts {
      assert x in multiset(rs);
    }
    forall x | x in ts ensures x in rs {
      assert x in multiset(ts);
    }
    assert (exists i :: 0 <= i < |rs| && Failed(rs[i])) ==> (exists j :: 0 <= j < |ts| && Failed(ts[j])) by {
      if exists i :: 0 <= i < |rs| && Failed(rs[i]) {
        var i :| 0 <= i < |rs| && Failed(rs[i]);
        assert rs[i] in ts;
        var j :| 0 <= j < |ts| && ts[j] == rs[i];
      }
    }
    assert (exists j :: 0 <= j < |ts| && Failed(ts[j])) ==> (exists i :: 0 <= i < |rs| && Failed(rs[i])) by {
      if exists j :: 0 <= j < |ts| && Failed(ts[j]) {
        var j :| 0 <= j < |ts| && Failed(ts[j]);
        assert ts[j] in rs;
        var i :| 0 <= i < |rs| && rs[i] == ts[j];
      }
    }
    assert (forall i :: 0 <= i < |rs| ==> rs[i] == Success) ==> (forall j :: 0 <= j < |ts| ==> ts[j] == Success) by {
      if forall i :: 0 <= i < |rs| ==> rs[i] == Success {
        forall j | 0 <= j < |ts| ensures ts[j] == Success {
          assert ts[j] in rs;
          var i :| 0 <= i < |rs| && rs[i] == ts[j];
        }
      }
    }
    assert (forall j :: 0 <= j < |ts| ==> ts[j] == Success) ==> (forall i :: 0 <= i < |rs| ==> rs[i] == Success) by {
      if forall j :: 0 <= j < |ts| ==> ts[j] == Success {
        forall i | 0 <= i < |rs| ensures rs[i] == Success {
          assert rs[i] in ts;
          var j :| 0 <= j < |ts| && ts[j] == rs[i];
        }
      }
    }
  }

  /** The manifest `_create_empty` builds: one fresh entry per configured
      step, put in configuration order. */
  function EmptyOf(runnerName: string, steps: seq<string>): (m: RootManifest)
    ensures m.result == Pending
    decreases |steps|
  {
    if steps == [] then RootManifest(Pending, [])
    else
      var prev := EmptyOf(runnerName, steps[..|steps| - 1]);
      var step := steps[|steps| - 1];
      RootManifest(Pending, Dict.Put(prev.steps, StepKey(runnerName, step), NewStepManifest(step)))
  }

  /** The empty manifest has unique keys. */
  lemma {:induction false} EmptyOfUnique(runnerName: string, steps: seq<string>)
    ensures Dict.UniqueKeys(EmptyOf(runnerName, steps).steps)
    decreases |steps|
  {
    if steps != [] {
      var step := steps[|steps| - 1];
      EmptyOfUnique(runnerName, steps[..|steps| - 1]);
      var prev := EmptyOf(runnerName, steps[..|steps| - 1]).steps;
      Dict.PutGet(prev, StepKey(runnerName, step), NewStepManifest(step), StepKey(runnerName, step));
    }
  }

  /** The empty manifest holds a fresh entry for every configured step under
      that step's key. */
  lemma {:induction false} EmptyOfEntries(runnerName: string, steps: seq<string>, i: nat)
    requires i < |steps|
    ensures Dict.Get(EmptyOf(runnerName, steps).steps, StepKey(runnerName, steps[i])) == Some(NewStepManifest(steps[i]))
    decreases |steps|
  {
    var init := steps[..|steps| - 1];
    var step := steps[|steps| - 1];
    var key := StepKey(runnerName, step);
    var prev := EmptyOf(runnerName, init).steps;
    var k := StepKey(runnerName, steps[i]);
    assert EmptyOf(runnerName, steps).steps == Dict.Put(prev, key, NewStepManifest(step));
    if k == key {
      StepKeyInjective(runnerName, steps[i], step);
      Dict.GetPutSame(prev, key, NewStepManifest(step));
    } else {
      assert i < |init| && steps[i] == init[i];
      Dict.GetPutOther(prev, key, NewStepManifest(step), k);
      EmptyOfEntries(runnerName, init, i);
    }
  }

  /** Every key of the empty manifest is the key of a configured step. */
  lemma {:induction false} EmptyOfOnlyConfigured(runnerName: string, steps: seq<string>, j: nat)
    requires j < |EmptyOf(runnerName, steps).steps|
    ensures exists i :: 0 <= i < |steps| && EmptyOf(runnerName, steps).steps[j].0 == StepKey(runnerName, steps[i])
    decreases |steps|
  {
    var init := steps[..|steps| - 1];
    var step := steps[|steps| - 1];
    var key := StepKey(runnerName, step);
    var prev := EmptyOf(runnerName, init).steps;
    var m := EmptyOf(runnerName, steps).steps;
    assert m == Dict.Put(prev, key, NewStepManifest(step));
    Dict.PutKeys(prev, key, NewStepManifest(step));
    if m[j].0 == key {
      assert m[j].0 == StepKey(runnerName, steps[|steps| - 1]);
    } else {
      var w :| 0 <= w < |prev| && prev[w].0 == m[j].0;
      EmptyOfOnlyConfigured(runnerName, init, w);
      var i :| 0 <= i < |init| && prev[w].0 == StepKey(runnerName, init[i]);
      assert init[i] == steps[i];
    }
  }

  /** `_create_empty`: the loop over the configured steps. */
  method CreateEmpty(runnerName: string, steps: seq<string>) returns (root: RootManifest)
    ensures root == EmptyOf(runnerName, steps)
    ensures root.result == Pending && Dict.UniqueKeys(root.steps)
    ensures forall i :: 0 <= i < |steps| ==>
      Dict.Get(root.steps, StepKey(runnerName, steps[i])) == Some(NewStepManifest(steps[i]))
  {
    root := RootManifest(Pending, []);
    for i := 0 to |steps|
      invariant root == EmptyOf(runnerName, steps[..i])
    {
      assert steps[..i + 1][..i] == steps[..i];
      root := root.(steps := Dict.Put(root.steps, StepKey(runnerName, steps[i]), NewStepManifest(steps[i])));
    }
    assert steps[..|steps|] == steps;
    EmptyOfUnique(runnerName, steps);
    forall i | 0 <= i < |steps|
      ensures Dict.Get(root.steps, StepKey(runnerName, steps[i])) == Some(NewStepManifest(steps[i]))
    {
      EmptyOfEntries(runnerName, steps, i);
    }
  }

  /** The manifest with `stepManifest` put under `key` and the root result
      recalculated (`_recalculate_result`). */
  function WithStep(base: RootManifest, key: string, stepManifest: StepManifest): (m: RootManifest)
    ensures Dict.Get(m.steps, key) == Some(stepManifest) || !Dict.UniqueKeys(base.steps)
    ensures Dict.UniqueKeys(base.steps) ==> Dict.UniqueKeys(m.steps)
    ensures Dict.UniqueKeys(base.steps) ==>
      forall k :: k != key ==> Dict.Get(m.steps, k) == Dict.Get(base.steps, k)
    ensures m.result == Rollup(Results(m.steps))
  {
    var steps := Dict.Put(base.steps, key, stepManifest);
    assert Dict.UniqueKeys(base.steps) ==>
      (Dict.UniqueKeys(steps) && Dict.Get(steps, key) == Some(stepManifest) &&
       forall k :: k != key ==> Dict.Get(steps, k) == Dict.Get(base.steps, k)) by {
      if Dict.UniqueKeys(base.steps) {
        Dict.PutGet(base.steps, key, stepManifest, key);
        forall k | k != key ensures Dict.Get(steps, k) == Dict.Get(base.steps, k) {
          Dict.PutGet(base.steps, key, stepManifest, k);
        }
      }
    }
    RootManifest(Rollup(Results(steps)), steps)
  }

  /** Where the manifest lives: next to the release, or in the work path
      when there is no release. */
  function ManifestLocation(releaseUri: string): string {
    if releaseUri != "" then releaseUri + "/" + ManifestFilename else ManifestFilename
  }

  /** What another process does to the manifest between this one's read and
      its conditional write: nothing, rewrite it, or delete it. */
  datatype Writer = NoWriter | OtherWriter(content: string, mtime: int) | Remover

  /** Two listings agree everywhere but at `loc` exactly when they are
      equal once `loc` is taken out of both. */
  lemma SameElsewhere(before: map<string, Filesystem.Node>, after: map<string, Filesystem.Node>, loc: string)
    ensures ((forall l :: l != loc ==> (l in after <==> l in before)) &&
             (forall l :: l != loc && l in after ==> after[l] == before[l]))
            <==> after - {loc} == before - {loc}
  {
    if after - {loc} == before - {loc} {
      forall l | l != loc
        ensures l in after <==> l in before
      {
        assert l in after <==> l in after - {loc};
        assert l in before <==> l in before - {loc};
      }
      forall l | l != loc && l in after
        ensures after[l] == before[l]
      {
        assert after[l] == (after - {loc})[l];
        assert before[l] == (before - {loc})[l];
      }
    }
  }

  class Manifest {
    const runnerName: string
    const steps: seq<string>
    const releaseUri: string
    var root: RootManifest

    constructor (runnerName: string, steps: seq<string>, releaseUri: string)
      ensures this.runnerName == runnerName && this.steps == steps && this.releaseUri == releaseUri
    {
      this.runnerName, this.steps, this.releaseUri := runnerName, steps, releaseUri;
      root := RootManifest(Pending, []);
    }

    /** One round of the `update` loop: read, parse, put the step, and
        write back conditioned on the revision just read. `writer` is what
        another process does between the read and the write. */
    method UpdateRound(stepManifest: StepManifest, store: Filesystem.FilesystemStorage, writer: Writer,
                       parse: string -> Option<RootManifest>, serialize: RootManifest -> string,
                       decodable: string -> bool, now: int)
      returns (r: Option<Outcome<(), Error>>, base: RootManifest)
      modifies this, store
      ensures r.Some? && r.value.Ok? ==> root == WithStep(base, StepKey(runnerName, stepManifest.name), stepManifest)
      ensures r.Some? && r.value.Ok? ==> var loc := ManifestLocation(releaseUri);
        loc in store.files && store.files[loc] == Filesystem.File(serialize(root), now)
      ensures r.Some? && r.value.Err? ==> r.value.error == ManifestError || r.value.error == IsADirectoryError
      ensures r.Some? && r.value.Ok? ==> var loc := ManifestLocation(releaseUri);
        loc in old(store.files) && old(store.files)[loc].File? && Some(base) == parse(old(store.files)[loc].data)
      ensures r.None? ==> writer.OtherWriter? && var loc := ManifestLocation(releaseUri);
        loc in store.files && store.files[loc] == Filesystem.File(writer.content, writer.mtime)
      ensures writer.Remover? ==> r.Some? && r.value.Err?
      ensures forall l :: l != ManifestLocation(releaseUri) ==> (l in store.files <==> l in old(store.files))
      ensures forall l :: l != ManifestLocation(releaseUri) && l in store.files ==> store.files[l] == old(store.files)[l]
      ensures var loc := ManifestLocation(releaseUri);
        loc in old(store.files) && old(store.files)[loc].File? && decodable(old(store.files)[loc].data) &&
        parse(old(store.files)[loc].data).Some? && writer.NoWriter? ==>
        r == Some(Ok(())) && Some(base) == parse(old(store.files)[loc].data)
    {
      var key := StepKey(runnerName, stepManifest.name);
      var loc := ManifestLocation(releaseUri);
      var read := store.ReadText(loc, decodable, []);
      if read.Err? {
        return Some(Err(if IsStorageError(read.error) then ManifestError else read.error)), root;
      }
      var (content, revision) := read.value;
      var parsed := parse(content);
      if parsed.None? {
        return Some(Err(ManifestError)), root;
      }
      base := parsed.value;
      root := WithStep(base, key, stepManifest);
      if writer.OtherWriter? {
        var _ := store.Write(loc, writer.content, None, writer.mtime);
      } else if writer.Remover? {
        store.files := store.files - {loc};
      }
      var w := store.Write(loc, serialize(root), Some(revision), now);
      if w.Ok? {
        r := Some(Ok(()));
      } else if w.error == PreconditionFailedError {
        r := None;
      } else {
        // a regular file was read, so the only other refusal is its
        // removal: NotFoundError, a StorageError
        assert IsStorageError(w.error);
        r := Some(Err(ManifestError));
      }
    }

    /** `update`: put the step into the stored manifest. A missing manifest
        is created from the configured steps and written unconditionally.
        Otherwise rounds of read, put and conditional write follow until one
        is not refused by a failed precondition; the next round starts at
        once. `writers[k]` is what another process does during round `k`;
        after the trace nobody else writes. */
    method Update(stepManifest: StepManifest, store: Filesystem.FilesystemStorage, writers: seq<Writer>,
                  parse: string -> Option<RootManifest>, serialize: RootManifest -> string,
                  decodable: string -> bool, now: int)
      returns (r: Outcome<(), Error>, base: RootManifest, rounds: nat)
      modifies this, store
      ensures r.Ok? ==> root == WithStep(base, StepKey(runnerName, stepManifest.name), stepManifest)
      ensures r.Ok? ==> var loc := ManifestLocation(releaseUri);
        loc in store.files && store.files[loc] == Filesystem.File(serialize(root), now)
      ensures r.Err? ==> r.error == ManifestError || r.error == IsADirectoryError
      ensures ManifestLocation(releaseUri) !in old(store.files) ==>
        r.Ok? && rounds == 0 && base == EmptyOf(runnerName, steps)
      ensures rounds <= |writers| + 1
      ensures forall k :: 0 <= k < rounds - 1 ==> writers[k].OtherWriter?
      ensures r.Ok? && 0 < rounds <= |writers| ==> !writers[rounds - 1].Remover?
      ensures r.Ok? && rounds == 1 ==> var loc := ManifestLocation(releaseUri);
        loc in old(store.files) && old(store.files)[loc].File? && Some(base) == parse(old(store.files)[loc].data)
      ensures r.Ok? && rounds >= 2 ==> Some(base) == parse(writers[rounds - 2].content)
      ensures forall l :: l != ManifestLocation(releaseUri) ==> (l in store.files <==> l in old(store.files))
      ensures forall l :: l != ManifestLocation(releaseUri) && l in store.files ==> store.files[l] == old(store.files)[l]
      ensures var loc := ManifestLocation(releaseUri);
        loc in old(store.files) && old(store.files)[loc].File? && decodable(old(store.files)[loc].data) &&
        parse(old(store.files)[loc].data).Some? && (forall k :: 0 <= k < |writers| ==> writers[k].NoWriter?) ==>
        r.Ok? && rounds == 1 && Some(base) == parse(old(store.files)[loc].data)
    {
      var loc := ManifestLocation(releaseUri);
      rounds := 0;
      if loc !in store.files {
        base := CreateEmpty(runnerName, steps);
        root := WithStep(base, StepKey(runnerName, stepManifest.name), stepManifest);
        var _ := store.Write(loc, serialize(root), None, now);
        assert store.files == old(store.files)[loc := Filesystem.File(serialize(root), now)];
        return Ok(()), base, 0;
      }
      assert loc in old(store.files);
      r, base, rounds := Retry(stepManifest, store, writers, parse, serialize, decodable, now);
      SameElsewhere(old(store.files), store.files, loc);
    }

    /** The rounds of `update` once a manifest exists: each reads, puts
        and writes conditionally, and the next starts at once when the
        write is refused by a failed precondition. */
    method Retry(stepManifest: StepManifest, store: Filesystem.FilesystemStorage, writers: seq<Writer>,
                 parse: string -> Option<RootManifest>, serialize: RootManifest -> string,
                 decodable: string -> bool, now: int)
      returns (r: Outcome<(), Error>, base: RootManifest, rounds: nat)
      requires ManifestLocation(releaseUri) in store.files
      modifies this, store
      ensures r.Ok? ==> root == WithStep(base, StepKey(runnerName, stepManifest.name), stepManifest)
      ensures r.Ok? ==> var loc := ManifestLocation(releaseUri);
        loc in store.files && store.files[loc] == Filesystem.File(serialize(root), now)
      ensures r.Err? ==> r.error == ManifestError || r.error == IsADirectoryError
      ensures 1 <= rounds <= |writers| + 1
      ensures forall k :: 0 <= k < rounds - 1 ==> writers[k].OtherWriter?
      ensures r.Ok? && rounds <= |writers| ==> !writers[rounds - 1].Remover?
      ensures r.Ok? && rounds == 1 ==> var loc := ManifestLocation(releaseUri);
        old(store.files)[loc].File? && Some(base) == parse(old(store.files)[loc].data)
      ensures r.Ok? && rounds >= 2 ==> Some(base) == parse(writers[rounds - 2].content)
      ensures store.files - {ManifestLocation(releaseUri)} == old(store.files) - {ManifestLocation(releaseUri)}
      ensures var loc := ManifestLocation(releaseUri);
        old(store.files)[loc].File? && decodable(old(store.files)[loc].data) &&
        parse(old(store.files)[loc].data).Some? && (forall k :: 0 <= k < |writers| ==> writers[k].NoWriter?) ==>
        r.Ok? && rounds == 1 && Some(base) == parse(old(store.files)[loc].data)
    {
      var loc := ManifestLocation(releaseUri);
      rounds := 0;
      ghost var quiet := forall k :: 0 <= k < |writers| ==> writers[k].NoWriter?;
      while true
        invariant rounds <= |writers|
        invariant forall k :: 0 <= k < rounds ==> writers[k].OtherWriter?
        invariant rounds == 0 ==> store.files == old(store.files)
        invariant rounds > 0 ==>
          loc in store.files && store.files[loc] == Filesystem.File(writers[rounds - 1].content, writers[rounds - 1].mtime)
        invariant quiet ==> rounds == 0
        invariant store.files - {loc} == old(store.files) - {loc}
        decreases |writers| - rounds
      {
        var writer := if rounds < |writers| then writers[rounds] else NoWriter;
        var done;
        ghost var before := store.files;
        done, base := UpdateRound(stepManifest, store, writer, parse, serialize, decodable, now);
        SameElsewhere(before, store.files, loc);
        rounds := rounds + 1;
        if done.Some? {
          assert rounds <= |writers| ==> writers[rounds - 1] == writer;
          return done.value, base, rounds;
        }
      }
    }
  }
}
