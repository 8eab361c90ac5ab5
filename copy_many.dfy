/** The CopyMany task: copy a list of external files into a directory of
    the release, retrying each copy on timeouts. */
module CopyMany {
  import opened Wrappers
  import opened Errors
  import opened Strings
  import opened Handle
  import opened AsyncHandle
  import StorageRegistry
  import opened ManifestModel

  /** `MAX_RETRIES` */
  const MaxRetries: nat := 3
  /** `RETRY_DELAY`, in whole seconds. */
  const RetryDelay: nat := 1

  /** The characters Python's `str.splitlines` breaks lines at. */
  predicate IsLineBreak(c: char) {
    c == '\n' || c == '\r' || c == '\U{000B}' || c == '\U{000C}' || c == '\U{001C}' || c == '\U{001D}' ||
    c == '\U{001E}' || c == '\U{0085}' || c == '\U{2028}' || c == '\U{2029}'
  }

  /** A string without line breaks. */
  predicate NoBreak(s: string) {
    forall i :: 0 <= i < |s| ==> !IsLineBreak(s[i])
  }

  /** The index of the first line break. */
  function FirstBreak(s: string): (r: Option<nat>)
    ensures r.Some? ==> r.value < |s| && IsLineBreak(s[r.value]) && NoBreak(s[..r.value])
    ensures r.None? ==> NoBreak(s)
  {
    if s == [] then None
    else if IsLineBreak(s[0]) then Some(0)
    else match FirstBreak(s[1..])
      case Some(k) =>
        assert s[..k + 1] == [s[0]] + s[1..][..k];
        Some(k + 1)
      case None => None
  }

  /** `str.splitlines()`: the lines without their terminators; "\r\n"
      ends one line, and a final terminator does not start an empty
      line. */
  function SplitLines(s: string): (r: seq<string>)
    ensures forall i :: 0 <= i < |r| ==> NoBreak(r[i])
    decreases |s|
  {
    match FirstBreak(s)
    case None => if s == [] then [] else [s]
    case Some(k) =>
      var w := if s[k] == '\r' && k + 1 < |s| && s[k + 1] == '\n' then 2 else 1;
      [s[..k]] + SplitLines(s[k + w..])
  }

  /** A break at `k` with none before it is the first break. */
  lemma {:induction false} FirstBreakAt(s: string, k: nat)
    requires k < |s| && IsLineBreak(s[k]) && NoBreak(s[..k])
    ensures FirstBreak(s) == Some(k)
  {
    if k > 0 {
      assert !IsLineBreak(s[..k][0]);
      assert s[1..][..k - 1] == s[1..k];
      assert forall j :: 0 <= j < k - 1 ==> s[1..k][j] == s[..k][j + 1];
      FirstBreakAt(s[1..], k - 1);
    }
  }

  /** A file of lines, each followed by "\n". */
  function JoinLines(lines: seq<string>): string {
    if lines == [] then [] else lines[0] + "\n" + JoinLines(lines[1..])
  }

  /** Splitting a file written one line per "\n" gives the lines back. */
  lemma {:induction false} SplitLinesJoinLines(lines: seq<string>)
    requires forall i :: 0 <= i < |lines| ==> NoBreak(lines[i])
    ensures SplitLines(JoinLines(lines)) == lines
  {
    if lines != [] {
      var rest := JoinLines(lines[1..]);
      var s := lines[0] + ("\n" + rest);
      var k := |lines[0]|;
      assert JoinLines(lines) == s;
      assert s[k] == '\n' && s[..k] == lines[0] && s[k + 1..] == rest;
      FirstBreakAt(s, k);
      assert SplitLines(s) == [lines[0]] + SplitLines(rest);
      assert forall i :: 0 <= i < |lines| - 1 ==> lines[1..][i] == lines[i + 1];
      SplitLinesJoinLines(lines[1..]);
    }
  }

  /** The sources `run` copies: neither a list nor a list file is a
      ValueError; a non-empty list file wins, its lines being the sources;
      otherwise the given list, or none. */
  function Sources(sources: Option<seq<string>>, sourceListFile: Option<string>, readList: string -> Outcome<string, Error>)
    : (r: Outcome<seq<string>, Error>)
    ensures sources.None? && sourceListFile.None? ==> r == Err(ValueError)
    ensures sourceListFile.Some? && sourceListFile.value != "" ==>
      r == (match readList(sourceListFile.value)
            case Err(e) => Err(e)
            case Ok(content) => Ok(SplitLines(content)))
    ensures (sources.Some? || sourceListFile.Some?) && (sourceListFile.None? || sourceListFile.value == "") ==>
      r == Ok(sources.GetOr([]))
  {
    if sourceListFile.None? && sources.None? then Err(ValueError)
    else if sourceListFile.Some? && sourceListFile.value != "" then
      match readList(sourceListFile.value)
      case Err(e) => Err(e)
      case Ok(content) => Ok(SplitLines(content))
    else Ok(sources.GetOr([]))
  }

  /** With a list file, the `sources` field plays no part. */
  lemma ListFileOverridesSources(s1: Option<seq<string>>, s2: Option<seq<string>>, file: string,
                                 readList: string -> Outcome<string, Error>)
    requires file != ""
    ensures Sources(s1, Some(file), readList) == Sources(s2, Some(file), readList)
  {
  }

  /** `Path(source).name`: the last component that is neither empty nor
      ".", or "" when there is none. */
  function PathName(s: string): (r: string)
    ensures '/' !in r && r != "."
    decreases |s|
  {
    match LastIndexOf(s, '/')
    case None => if s == "." then "" else s
    case Some(k) =>
      var last := s[k + 1..];
      if last == "" || last == "." then PathName(s[..k])
      else
        assert forall j :: 0 <= j < |last| ==> last[j] == s[k + 1 + j];
        last
  }

  /** The name of a path is the component after its last '/'. */
  lemma PathNameJoined(dir: string, name: string)
    requires name != "" && name != "." && '/' !in name
    ensures PathName(dir + "/" + name) == name
  {
    var s := dir + "/" + name;
    assert s[|dir|] == '/';
    assert forall j :: |dir| < j < |s| ==> s[j] == name[j - |dir| - 1];
    assert LastIndexOf(s, '/') == Some(|dir|);
    assert s[|dir| + 1..] == name;
  }

  /** Trailing slashes do not change a path's name. */
  lemma PathNameTrailingSlash(s: string)
    ensures PathName(s + "/") == PathName(s)
  {
    var t := s + "/";
    assert t[|s|] == '/';
    assert LastIndexOf(t, '/') == Some(|s|);
    assert t[|s| + 1..] == "" && t[..|s|] == s;
  }

  /** Where a source is copied to: the destination directory, a '/', and
      the source's name. */
  function DestPath(destination: string, source: string): (d: string)
    ensures d == destination + "/" + PathName(source)
    ensures PathName(source) != "" ==> PathName(d) == PathName(source)
  {
    var name := PathName(source);
    if name != "" then
      PathNameJoined(destination, name);
      destination + "/" + name
    else destination + "/" + name
  }

  /** 2 to the power `k`. */
  function Pow2(k: nat): nat {
    if k == 0 then 1 else 2 * Pow2(k - 1)
  }

  /** The exceptions `_copy_single_file` retries: httpx's ReadTimeout and
      the built-in TimeoutError. */
  predicate IsTimeout(e: Error) {
    e == TimeoutError || e == ReadTimeout
  }

  /** One attempt of `_copy_single_file` against backends `be`: both
      handles are built (the source without a configuration), the copy is
      made, and the artifact records both absolute locations. */
  function AttemptOutcome(source: string, destPath: string, config: Option<Config>,
                          mappings: seq<(string, StorageRegistry.Kind)>, be: AsyncBackends)
    : Outcome<Artifact, Error>
  {
    var src := AsyncHandle.Resolve(StripWorkPath(source, None), None, false);
    var dst := AsyncHandle.Resolve(StripWorkPath(destPath, config), config, false);
    if src.Err? then Err(src.error)
    else if dst.Err? then Err(dst.error)
    else
      var c := CopyBetween(StorageRegistry.Route(mappings, src.value), src.value,
                           StorageRegistry.Route(mappings, dst.value), dst.value, be).0;
      if c.Err? then Err(c.error) else Ok(Artifact(src.value, dst.value))
  }

  /** The attempts `_copy_single_file` may make, attempt `a` meeting
      backends `be(a)`. */
  function Attempts(source: string, destination: string, config: Option<Config>,
                    mappings: seq<(string, StorageRegistry.Kind)>, be: nat -> AsyncBackends)
    : (r: seq<Outcome<Artifact, Error>>)
    ensures |r| == MaxRetries + 1
    ensures forall a :: 0 <= a < |r| ==>
      r[a] == AttemptOutcome(source, DestPath(destination, source), config, mappings, be(a))
  {
    seq(MaxRetries + 1, a requires 0 <= a => AttemptOutcome(source, DestPath(destination, source), config, mappings, be(a)))
  }

  /** The retry rule from attempt `a` on: an attempt that succeeds, fails
      with anything but a timeout, or is the last one decides; a timeout
      before the last attempt waits `RETRY_DELAY * 2^a` and tries again.
      The second component lists the waits. */
  function Retry(outcomes: seq<Outcome<Artifact, Error>>, a: nat): (Outcome<Artifact, Error>, seq<nat>)
    requires a < |outcomes|
    decreases |outcomes| - a
  {
    if outcomes[a].Ok? || !IsTimeout(outcomes[a].error) || a == |outcomes| - 1 then (outcomes[a], [])
    else
      var rest := Retry(outcomes, a + 1);
      (rest.0, [RetryDelay * Pow2(a)] + rest.1)
  }

  /** The retry rule makes at most one attempt per outcome: the deciding
      attempt is the one after the waits, every attempt before it timed
      out, the wait before retry `j` is `RETRY_DELAY * 2^j`, and a timeout
      is passed on only from the last attempt. */
  lemma {:induction false} RetryShape(outcomes: seq<Outcome<Artifact, Error>>, a: nat)
    requires a < |outcomes|
    ensures var (r, waits) := Retry(outcomes, a);
      var k := a + |waits|;
      k < |outcomes| && r == outcomes[k] &&
      (forall j :: a <= j < k ==> outcomes[j].Err? && IsTimeout(outcomes[j].error)) &&
      (forall j :: 0 <= j < |waits| ==> waits[j] == RetryDelay * Pow2(a + j)) &&
      (r.Err? && IsTimeout(r.error) ==> k == |outcomes| - 1)
    decreases |outcomes| - a
  {
    if !(outcomes[a].Ok? || !IsTimeout(outcomes[a].error) || a == |outcomes| - 1) {
      RetryShape(outcomes, a + 1);
    }
  }

  /** `_copy_single_file`: build both handles, copy, and return the
      artifact; a timeout is retried after a growing wait up to
      `MAX_RETRIES` times, and any other error ends the copy at once. The
      waits are returned alongside. */
  method CopySingleFile(source: string, destination: string, config: Option<Config>,
                        registry: StorageRegistry.Registry, be: nat -> AsyncBackends)
    returns (r: Outcome<Artifact, Error>, waits: seq<nat>)
    requires registry.Valid()
    modifies registry`backends
    ensures registry.Valid()
    ensures (r, waits) == Retry(Attempts(source, destination, config, registry.mappings, be), 0)
  {
    ghost var outcomes := Attempts(source, destination, config, registry.mappings, be);
    waits := [];
    var attempt := 0;
    assert [] + Retry(outcomes, 0).1 == Retry(outcomes, 0).1;
    while true
      invariant attempt <= MaxRetries && registry.Valid()
      invariant Retry(outcomes, 0).0 == Retry(outcomes, attempt).0
      invariant Retry(outcomes, 0).1 == waits + Retry(outcomes, attempt).1
      decreases MaxRetries - attempt
    {
      r := CopyAttempt(source, destination, config, registry, be, attempt);
      if !(r.Err? && IsTimeout(r.error) && attempt < MaxRetries) {
        RetryDecided(outcomes, attempt, waits);
        return;
      }
      var delay: nat := RetryDelay * Pow2(attempt);
      RetryAdvance(outcomes, attempt, waits);
      waits := waits + [delay];
      attempt := attempt + 1;
    }
  }

  /** A timeout before the last attempt adds its wait and defers to the
      next attempt. */
  lemma RetryAdvance(outcomes: seq<Outcome<Artifact, Error>>, a: nat, waits: seq<nat>)
    requires a + 1 < |outcomes| && outcomes[a].Err? && IsTimeout(outcomes[a].error)
    ensures Retry(outcomes, a).0 == Retry(outcomes, a + 1).0
    ensures waits + Retry(outcomes, a).1 == (waits + [RetryDelay * Pow2(a)]) + Retry(outcomes, a + 1).1
  {
    assert Retry(outcomes, a).1 == [RetryDelay * Pow2(a)] + Retry(outcomes, a + 1).1;
  }

  /** An attempt that is not retried decides the copy, with no further
      wait. */
  lemma RetryDecided(outcomes: seq<Outcome<Artifact, Error>>, a: nat, waits: seq<nat>)
    requires a < |outcomes|
    requires outcomes[a].Ok? || !IsTimeout(outcomes[a].error) || a == |outcomes| - 1
    ensures Retry(outcomes, a) == (outcomes[a], [])
    ensures waits + Retry(outcomes, a).1 == waits
  {
  }

  /** Attempt `a` of `_copy_single_file`: both handles are built through
      the registry, the copy is made, and the artifact records both
      absolute locations. */
  method CopyAttempt(source: string, destination: string, config: Option<Config>,
                     registry: StorageRegistry.Registry, be: nat -> AsyncBackends, a: nat)
    returns (r: Outcome<Artifact, Error>)
    requires registry.Valid() && a <= MaxRetries
    modifies registry`backends
    ensures registry.Valid()
    ensures r == Attempts(source, destination, config, registry.mappings, be)[a]
  {
    var destPath := DestPath(destination, source);
    var src := NewAsyncHandle(source, None, false, registry);
    if src.Err? {
      return Err(src.error);
    }
    var dst := NewAsyncHandle(destPath, config, false, registry);
    if dst.Err? {
      return Err(dst.error);
    }
    var (copied, _) := AsyncHandle.CopyTo(src.value, dst.value, be(a));
    if copied.Err? {
      return Err(copied.error);
    }
    r := Ok(Artifact(src.value.resolved, dst.value.resolved));
  }

  /** `asyncio.gather` over the copies: every artifact in source order,
      or an error of a failed copy. */
  function Gather(results: seq<Outcome<Artifact, Error>>): (r: Outcome<seq<Artifact>, Error>)
    ensures r.Ok? <==> forall j :: 0 <= j < |results| ==> results[j].Ok?
    ensures r.Ok? ==> |r.value| == |results| && forall j :: 0 <= j < |results| ==> r.value[j] == results[j].value
    ensures r.Err? ==> exists k :: 0 <= k < |results| && results[k] == Err(r.error) &&
                                   forall j :: 0 <= j < k ==> results[j].Ok?
  {
    if results == [] then Ok([])
    else if results[0].Err? then Err(results[0].error)
    else
      var rest := Gather(results[1..]);
      if rest.Err? then
        var k :| 0 <= k < |results[1..]| && results[1..][k] == Err(rest.error) &&
                 forall j :: 0 <= j < k ==> results[1..][j].Ok?;
        assert results[k + 1] == Err(rest.error);
        Err(rest.error)
      else Ok([results[0].value] + rest.value)
  }

  /** The backends the attempts on source `i` meet. */
  function Column(be: (nat, nat) -> AsyncBackends, i: nat): nat -> AsyncBackends {
    (a: nat) => be(i, a)
  }

  /** The first failed copy decides what `gather` raises. */
  lemma GatherFirstError(results: seq<Outcome<Artifact, Error>>, i: nat)
    requires i < |results| && results[i].Err?
    requires forall j :: 0 <= j < i ==> results[j].Ok?
    ensures Gather(results) == Err(results[i].error)
  {
    var g := Gather(results);
    if g.Err? {
      var k :| 0 <= k < |results| && results[k] == Err(g.error) && forall j :: 0 <= j < k ==> results[j].Ok?;
      assert !(k < i) && !(i < k);
    }
  }

  /** When every copy succeeds, `gather` returns their artifacts. */
  lemma GatherAllOk(results: seq<Outcome<Artifact, Error>>, values: seq<Artifact>)
    requires |values| == |results|
    requires forall j :: 0 <= j < |results| ==> results[j] == Ok(values[j])
    ensures Gather(results) == Ok(values)
  {
    assert forall j :: 0 <= j < |results| ==> results[j].Ok?;
  }

  /** The copies made so far grow by one successful copy. */
  lemma OkPrefixExtends(results: seq<Outcome<Artifact, Error>>, values: seq<Artifact>, v: Artifact)
    requires |values| < |results| && results[|values|] == Ok(v)
    requires forall j :: 0 <= j < |values| ==> results[j] == Ok(values[j])
    ensures forall j :: 0 <= j < |values| + 1 ==> results[j] == Ok((values + [v])[j])
  {
  }

  /** What copying source `i` comes to, its attempts meeting backends
      `be(i, a)`. */
  function CopyOutcome(sources: seq<string>, i: nat, destination: string, config: Option<Config>,
                       mappings: seq<(string, StorageRegistry.Kind)>, be: (nat, nat) -> AsyncBackends)
    : Outcome<Artifact, Error>
    requires i < |sources|
  {
    Retry(Attempts(sources[i], destination, config, mappings, Column(be, i)), 0).0
  }

  /** The copies of all sources, in source order. */
  function CopyOutcomes(sources: seq<string>, destination: string, config: Option<Config>,
                        mappings: seq<(string, StorageRegistry.Kind)>, be: (nat, nat) -> AsyncBackends)
    : (r: seq<Outcome<Artifact, Error>>)
    ensures |r| == |sources|
    ensures forall i :: 0 <= i < |sources| ==> r[i] == CopyOutcome(sources, i, destination, config, mappings, be)
  {
    seq(|sources|, i requires 0 <= i < |sources| => CopyOutcome(sources, i, destination, config, mappings, be))
  }

  /** The copies of `run`, one source after the other: one artifact per
      source in source order, or the first failed copy's error. */
  method CopyAll(srcs: seq<string>, destination: string, config: Option<Config>,
                 registry: StorageRegistry.Registry, be: (nat, nat) -> AsyncBackends)
    returns (artifacts: Outcome<seq<Artifact>, Error>)
    requires registry.Valid()
    modifies registry`backends
    ensures registry.Valid()
    ensures artifacts == Gather(CopyOutcomes(srcs, destination, config, registry.mappings, be))
  {
    ghost var outcomes := CopyOutcomes(srcs, destination, config, registry.mappings, be);
    var copied: seq<Artifact> := [];
    var i := 0;
    while i < |srcs|
      invariant 0 <= i <= |srcs| && registry.Valid()
      invariant |copied| == i
      invariant forall j :: 0 <= j < i ==> outcomes[j] == Ok(copied[j])
    {
      var r, _ := CopySingleFile(srcs[i], destination, config, registry, Column(be, i));
      if r.Err? {
        GatherFirstError(outcomes, i);
        return Err(r.error);
      }
      assert outcomes[i] == Ok(r.value);
      OkPrefixExtends(outcomes, copied, r.value);
      copied := copied + [r.value];
      i := i + 1;
    }
    artifacts := Ok(copied);
    GatherAllOk(outcomes, copied);
  }

  /** `CopyMany.run`: select the sources, then copy them. */
  method Run(sources: Option<seq<string>>, sourceListFile: Option<string>, destination: string, config: Option<Config>,
             readList: string -> Outcome<string, Error>, registry: StorageRegistry.Registry, be: (nat, nat) -> AsyncBackends)
    returns (artifacts: Outcome<seq<Artifact>, Error>)
    requires registry.Valid()
    modifies registry`backends
    ensures registry.Valid()
    ensures var selected := Sources(sources, sourceListFile, readList);
      artifacts == (if selected.Err? then Err(selected.error)
                    else Gather(CopyOutcomes(selected.value, destination, config, registry.mappings, be)))
  {
    var selected := Sources(sources, sourceListFile, readList);
    if selected.Err? {
      return Err(selected.error);
    }
    artifacts := CopyAll(selected.value, destination, config, registry, be);
  }
}
