/** The FindLatest task: among the files a glob lists, the one modified
    last, stored in the scratchpad. */
module FindLatest {
  import opened Wrappers
  import opened Errors
  import opened Handle
  import Util
  import opened Strings

  /** The scratchpad key: `scratchpad_key` unless it is unset or empty,
      else the task's name. */
  function Key(name: string, scratchpadKey: Option<string>): (k: string)
    ensures scratchpadKey.Some? && scratchpadKey.value != "" ==> k == scratchpadKey.value
    ensures scratchpadKey.None? || scratchpadKey.value == "" ==> k == name
  {
    if scratchpadKey.Some? && scratchpadKey.value != "" then scratchpadKey.value else name
  }

  /** A listed path's handle (built without a configuration) and its
      metadata. */
  function Probe(path: string, be: Backends): Outcome<Stat, Error> {
    StatAt(path, None, false, be)
  }

  /** The metadata of every listed path, in listing order. */
  function Probes(paths: seq<string>, be: Backends): (ps: seq<Outcome<Stat, Error>>)
    ensures |ps| == |paths|
    ensures forall j :: 0 <= j < |paths| ==> ps[j] == Probe(paths[j], be)
  {
    seq(|paths|, j requires 0 <= j < |paths| => Probe(paths[j], be))
  }

  /** One turn of the selection loop: take the file when nothing has a
      modification time yet or when its time is strictly later; comparing
      a missing time with a known one raises TypeError. */
  function Step(acc: Outcome<(Option<nat>, Option<int>), Error>, i: nat, probe: Outcome<Stat, Error>)
    : Outcome<(Option<nat>, Option<int>), Error>
  {
    if acc.Err? then acc
    else if probe.Err? then Err(probe.error)
    else
      var m := probe.value.mtime;
      var latestMtime := acc.value.1;
      if latestMtime.None? then Ok((Some(i), m))
      else if m.None? then Err(TypeError)
      else if m.value > latestMtime.value then Ok((Some(i), m))
      else acc
  }

  /** The selection loop over the listed files' metadata: the index of
      the chosen file and its modification time. */
  function Scan(probes: seq<Outcome<Stat, Error>>): (r: Outcome<(Option<nat>, Option<int>), Error>)
    ensures r.Ok? && r.value.0.Some? ==> r.value.0.value < |probes|
    ensures r.Ok? ==> (r.value.0.None? <==> probes == [])
  {
    if probes == [] then Ok((None, None))
    else Step(Scan(probes[..|probes| - 1]), |probes| - 1, probes[|probes| - 1])
  }

  /** Every listed file could be statted and reports a modification time. */
  predicate AllTimed(probes: seq<Outcome<Stat, Error>>) {
    forall j :: 0 <= j < |probes| ==> probes[j].Ok? && probes[j].value.mtime.Some?
  }

  /** When every file reports a time, the loop picks a file whose time is
      at least every listed time and strictly later than every earlier
      file's: the latest, with ties going to the first in glob order. */
  lemma {:induction false} ScanPicksFirstLatest(probes: seq<Outcome<Stat, Error>>)
    requires AllTimed(probes) && probes != []
    ensures Scan(probes).Ok?
    ensures var (i, m) := Scan(probes).value;
      i.Some? && m == probes[i.value].value.mtime && m.Some? &&
      (forall j :: 0 <= j < |probes| ==> probes[j].value.mtime.value <= m.value) &&
      (forall j :: 0 <= j < i.value ==> probes[j].value.mtime.value < m.value)
  {
    var n := |probes| - 1;
    var init := probes[..n];
    assert forall j :: 0 <= j < n ==> init[j] == probes[j];
    if n > 0 {
      ScanPicksFirstLatest(init);
    }
  }

  /** Once the loop has failed on a prefix, the whole scan fails with the
      same error. */
  lemma {:induction false} PrefixFailure(probes: seq<Outcome<Stat, Error>>, k: nat)
    requires k <= |probes| && Scan(probes[..k]).Err?
    ensures Scan(probes) == Scan(probes[..k])
    decreases |probes| - k
  {
    if k < |probes| {
      assert probes[..k + 1][..k] == probes[..k];
      PrefixFailure(probes, k + 1);
    } else {
      assert probes[..k] == probes;
    }
  }

  /** What `run` stores: the key and the chosen file's absolute location;
      no file at all is a FileNotFoundError and stores nothing. */
  function Outcome(source: string, name: string, scratchpadKey: Option<string>, be: Backends)
    : Outcome<(string, string), Error>
  {
    var (prefix, glob) := Util.SplitGlobOf(source);
    match NewHandle(prefix, None, false)
    case Err(e) => Err(e)
    case Ok(h) =>
      match be.glob(h.storage, h.resolved, glob)
      case Err(e) => Err(e)
      case Ok(paths) =>
        match Scan(Probes(paths, be))
        case Err(e) => Err(e)
        case Ok((latest, _)) =>
          if latest.None? then Err(FileNotFoundError)
          else Ok((Key(name, scratchpadKey), paths[latest.value]))
  }

  /** The selection loop of `run`: stat each listed path in turn and keep
      the latest one seen. */
  method SelectLatest(paths: seq<string>, be: Backends) returns (r: Outcome<(Option<nat>, Option<int>), Error>)
    ensures r == Scan(Probes(paths, be))
  {
    ghost var probes := Probes(paths, be);
    var latest: Option<nat> := None;
    var latestMtime: Option<int> := None;
    var i := 0;
    while i < |paths|
      invariant 0 <= i <= |paths|
      invariant Scan(probes[..i]) == Ok((latest, latestMtime))
    {
      assert probes[..i + 1][..i] == probes[..i];
      // StorageHandle(p).stat()
      var s := StatAt(paths[i], None, false, be);
      if s.Err? {
        PrefixFailure(probes, i + 1);
        return Err(s.error);
      }
      if latestMtime.None? {
        latest, latestMtime := Some(i), s.value.mtime;
      } else if s.value.mtime.None? {
        PrefixFailure(probes, i + 1);
        return Err(TypeError);
      } else if s.value.mtime.value > latestMtime.value {
        latest, latestMtime := Some(i), s.value.mtime;
      }
      i := i + 1;
    }
    assert probes[..|paths|] == probes;
    r := Ok((latest, latestMtime));
  }

  /** `FindLatest.run`, with the handle's `glob` and `stat` called as the
      synchronous calls they are: split the glob, list the files, keep
      the latest, and store its location under the key. */
  method Run(source: string, name: string, scratchpadKey: Option<string>, be: Backends)
    returns (r: Outcome<(string, string), Error>)
    ensures r == Outcome(source, name, scratchpadKey, be)
  {
    var prefix, glob := Util.SplitGlob(source);
    var h := NewHandle(prefix, None, false);
    if h.Err? {
      return Err(h.error);
    }
    var listing := be.glob(h.value.storage, h.value.resolved, glob);
    if listing.Err? {
      return Err(listing.error);
    }
    var paths := listing.value;
    var selected := SelectLatest(paths, be);
    if selected.Err? {
      return Err(selected.error);
    }
    var (latest, _) := selected.value;
    if latest.None? {
      return Err(FileNotFoundError);
    }
    r := Ok((Key(name, scratchpadKey), paths[latest.value]));
  }

  /** A handle built without a configuration resolves to its location,
      so the stored `latest.absolute` is the listed path itself. */
  lemma AbsoluteKept(path: string)
    ensures NewHandle(path, None, false).Ok? ==> NewHandle(path, None, false).value.resolved == path
  {
  }

  /** An empty listing raises FileNotFoundError and stores nothing;
      anything stored is stored under the key. */
  lemma OutcomeShape(source: string, name: string, scratchpadKey: Option<string>, be: Backends)
    ensures var (prefix, glob) := Util.SplitGlobOf(source);
      NewHandle(prefix, None, false).Ok? &&
      be.glob(NewHandle(prefix, None, false).value.storage, NewHandle(prefix, None, false).value.resolved, glob) == Ok([]) ==>
      Outcome(source, name, scratchpadKey, be) == Err(FileNotFoundError)
    ensures Outcome(source, name, scratchpadKey, be).Ok? ==>
      Outcome(source, name, scratchpadKey, be).value.0 == Key(name, scratchpadKey)
  {
    var (prefix, glob) := Util.SplitGlobOf(source);
    var h := NewHandle(prefix, None, false);
    if h.Ok? && be.glob(h.value.storage, h.value.resolved, glob) == Ok([]) {
      assert Probes([], be) == [];
    }
  }

  /** The awaited metadata of every listed path, in listing order. */
  function AwaitedProbes(paths: seq<string>, be: Backends): (ps: seq<Outcome<Stat, Error>>)
    ensures |ps| == |paths|
    ensures forall j :: 0 <= j < |paths| ==> ps[j] == AwaitedStat(paths[j], None, false, be)
  {
    seq(|paths|, j requires 0 <= j < |paths| => AwaitedStat(paths[j], None, false, be))
  }

  /** `FindLatest.run` as written: the listing and each stat are awaited.
      A gs:// prefix lists synchronously, and awaiting the list raises
      TypeError before any file is looked at; an HTTP or unrecognised
      prefix yields a coroutine whose outcome is used. A local prefix
      never gets that far, since the handle is built without a
      configuration (`PrefixHandleIsRemote`). */
  function OutcomeAsWritten(source: string, name: string, scratchpadKey: Option<string>, be: Backends)
    : Outcome<(string, string), Error>
  {
    var (prefix, glob) := Util.SplitGlobOf(source);
    match NewHandle(prefix, None, false)
    case Err(e) => Err(e)
    case Ok(h) =>
      match be.glob(h.storage, h.resolved, glob)
      case Err(e) => Err(e)
      case Ok(paths) =>
        if !Awaitable(h.storage) then Err(TypeError)
        else
          match Scan(AwaitedProbes(paths, be))
          case Err(e) => Err(e)
          case Ok((latest, _)) =>
            if latest.None? then Err(FileNotFoundError)
            else Ok((Key(name, scratchpadKey), paths[latest.value]))
  }

  /** The prefix handle is built without a configuration, so only a URI
      prefix (the glob's text before its first wildcard) gets a handle: a
      relative or '/'-rooted prefix raises
      ValueError, and the only synchronous backend a handle can reach is
      Google's. */
  lemma PrefixHandleIsRemote(prefix: string)
    ensures NewHandle(prefix, None, false).Ok? <==> !StartsWith(prefix, "/") && HasInfix(prefix, "://")
    ensures var h := NewHandle(prefix, None, false);
      h.Ok? ==> h.value.storage != FilesystemStorage && (!Awaitable(h.value.storage) <==> h.value.storage == GoogleStorage)
  {
    var h := NewHandle(prefix, None, false);
    if h.Ok? {
      assert h.value.resolved == prefix;
      assert Protocol(prefix).Some?;
    }
  }

  /** As written, `run` never stores anything for a gs:// prefix: wherever the corrected loop stores the latest file, the
      written code raises TypeError. For an HTTP or unrecognised prefix
      the backend's `glob` raises NotImplementedError, so neither version
      stores anything there either. */
  lemma AsWrittenNeverStores(source: string, name: string, scratchpadKey: Option<string>, be: Backends)
    ensures var h := NewHandle(Util.SplitGlobOf(source).0, None, false);
      h.Ok? && !Awaitable(h.value.storage) ==>
        OutcomeAsWritten(source, name, scratchpadKey, be).Err? &&
        (Outcome(source, name, scratchpadKey, be).Ok? ==> OutcomeAsWritten(source, name, scratchpadKey, be) == Err(TypeError))
    ensures var h := NewHandle(Util.SplitGlobOf(source).0, None, false);
      h.Ok? && Awaitable(h.value.storage) && AsyncRefusals(be) ==>
        OutcomeAsWritten(source, name, scratchpadKey, be) == Err(NotImplementedError) &&
        Outcome(source, name, scratchpadKey, be) == Err(NotImplementedError)
  {
  }
}
