/** The `explode_glob` task: every file a glob matches is broken into the
    parts that subtask specs may refer to (`uri`, `match_prefix`,
    `match_path`, `match_stem`, `match_ext`, `uuid`), and every spec of the
    task's `do` list is instantiated once per file, with doubled slashes
    cleaned out of its text fields. */
module ExplodeGlob {
  import opened Wrappers
  import opened Strings
  import Util
  import Seqs
  import opened Errors

  /** `uri` is `f` with `base` and the slashes that follow it removed. */
  predicate Stripped(f: string, base: string, uri: string) {
    |base| + |uri| <= |f| && f[..|base|] == base && f[|f| - |uri|..] == uri &&
    (uri == [] || uri[0] != '/') &&
    forall i :: |base| <= i < |f| - |uri| ==> f[i] == '/'
  }

  /** `f[len(base):].lstrip('/')` for a `base` that `f` starts with. */
  function StripBase(f: string, base: string): (uri: string)
    requires StartsWith(f, base)
    ensures Stripped(f, base, uri)
  {
    var rest := f[|base|..];
    var uri := LStrip(rest, '/');
    assert f[|f| - |uri|..] == rest[|rest| - |uri|..];
    assert forall i :: |base| <= i < |f| - |uri| ==> f[i] == rest[i - |base|];
    uri
  }

  /** The matched file made relative to the release URI if it starts with
      it, else to the work path if it starts with that, else left as is. */
  function Relativize(f: string, releaseUri: string, workPath: string): (uri: string)
    ensures releaseUri != [] && StartsWith(f, releaseUri) ==> Stripped(f, releaseUri, uri)
    ensures !(releaseUri != [] && StartsWith(f, releaseUri)) && workPath != [] && StartsWith(f, workPath) ==>
      Stripped(f, workPath, uri)
    ensures !(releaseUri != [] && StartsWith(f, releaseUri)) && !(workPath != [] && StartsWith(f, workPath)) ==>
      uri == f
  {
    if releaseUri != [] && StartsWith(f, releaseUri) then StripBase(f, releaseUri)
    else if workPath != [] && StartsWith(f, workPath) then StripBase(f, workPath)
    else f
  }

  /** `uri.removeprefix(prefix).lstrip('/')`: a suffix of `uri` that does
      not start with a slash. */
  function RelativePath(uri: string, prefix: string): (rel: string)
    ensures |rel| <= |uri| && uri[|uri| - |rel|..] == rel
    ensures rel == [] || rel[0] != '/'
  {
    var rest := RemovePrefix(uri, prefix);
    assert uri[|uri| - |rest|..] == rest;
    var rel := LStrip(rest, '/');
    assert uri[|uri| - |rel|..] == rest[|rest| - |rel|..];
    rel
  }

  /** `uri.removesuffix(rel).rstrip('/')`. */
  function MatchPrefix(uri: string, rel: string): (p: string)
    ensures p == [] || p[|p| - 1] != '/'
  {
    RStrip(RemoveSuffix(uri, rel), '/')
  }

  /** `rel.rpartition('/')` without the separator: the directory part and
      the file name. */
  function SplitPath(rel: string): (r: (string, string))
    ensures '/' !in r.1
    ensures '/' in rel ==> r.0 + "/" + r.1 == rel
    ensures '/' !in rel ==> r.0 == [] && r.1 == rel
  {
    var p := RPartition(rel, '/');
    (p.before, p.after)
  }

  /** `filename.rpartition('.')`, replaced by `(filename, '')` when the
      stem comes out empty (a dotfile, or no extension at all). */
  function SplitName(filename: string): (r: (string, string))
    ensures '.' !in r.1
    ensures '/' !in filename ==> '/' !in r.0 && '/' !in r.1
    ensures (exists i :: 0 < i < |filename| && filename[i] == '.') ==>
      r.0 != [] && r.0 + "." + r.1 == filename
    ensures (forall i :: 0 < i < |filename| ==> filename[i] != '.') ==>
      r.0 == filename && r.1 == []
  {
    var p := RPartition(filename, '.');
    if p.before == [] then
      assert forall i :: 0 < i < |filename| ==> filename[i] != '.' by {
        var k := LastIndexOf(filename, '.');
        if k.Some? {
          assert p.before == filename[..k.value];
        }
      }
      (filename, [])
    else
      assert p.sep == ['.'];
      (p.before, p.after)
  }

  /** The values one matched file puts into the scratchpad. */
  datatype Match = Match(uri: string, matchPrefix: string, matchPath: string, matchStem: string, matchExt: string)

  /** The per-file computation of `run`. */
  function Decompose(f: string, releaseUri: string, workPath: string, prefix: string): Match {
    var uri := Relativize(f, releaseUri, workPath);
    var rel := RelativePath(uri, prefix);
    var split := SplitPath(rel);
    var name := SplitName(split.1);
    Match(uri, MatchPrefix(uri, rel), split.0, name.0, name.1)
  }

  /** The match prefix never ends with a slash; the stem and extension hold
      no slash, and the extension no dot. */
  lemma DecomposeShape(f: string, releaseUri: string, workPath: string, prefix: string)
    ensures var m := Decompose(f, releaseUri, workPath, prefix);
      (m.matchPrefix == [] || m.matchPrefix[|m.matchPrefix| - 1] != '/') &&
      '.' !in m.matchExt && '/' !in m.matchExt && '/' !in m.matchStem
  {
  }

  /** The stem and extension put back together give the file name: with
      the dot between them when there is an extension, and when there is
      none, either the name itself or the name's trailing dot dropped. */
  lemma SplitNameRebuilds(filename: string)
    ensures var (stem, ext) := SplitName(filename);
      (ext != [] ==> stem + "." + ext == filename) &&
      (ext == [] ==> stem == filename || stem + "." == filename)
  {
    var (stem, ext) := SplitName(filename);
    if ext == [] && stem != filename {
      assert stem + "." + ext == filename;
      assert stem + "." + ext == stem + ".";
    }
  }

  /** The directory part, stem and extension put back together give the
      path relative to the glob prefix. */
  lemma DecomposeRebuilds(f: string, releaseUri: string, workPath: string, prefix: string)
    ensures var m := Decompose(f, releaseUri, workPath, prefix);
      var rel := RelativePath(m.uri, prefix);
      var filename := SplitPath(rel).1;
      ('/' in rel ==> m.matchPath + "/" + filename == rel) &&
      ('/' !in rel ==> m.matchPath == [] && filename == rel) &&
      (m.matchExt != [] ==> m.matchStem + "." + m.matchExt == filename) &&
      (m.matchExt == [] ==> m.matchStem == filename || m.matchStem + "." == filename)
  {
    var uri := Relativize(f, releaseUri, workPath);
    var rel := RelativePath(uri, prefix);
    var split := SplitPath(rel);
    SplitNameRebuilds(split.1);
    assert Decompose(f, releaseUri, workPath, prefix) ==
      Match(uri, MatchPrefix(uri, rel), split.0, SplitName(split.1).0, SplitName(split.1).1);
  }

  /** The relative path always ends the URI; in front of it the URI holds
      the match prefix and the slashes `rstrip` removed. When the relative
      path is empty, `removesuffix('')` leaves the URI whole, so the match
      prefix is the URI without its trailing slashes. */
  lemma PrefixThenRelative(uri: string, prefix: string)
    ensures var rel := RelativePath(uri, prefix);
      var p := MatchPrefix(uri, rel);
      (rel != [] ==>
         |p| + |rel| <= |uri| && uri[..|p|] == p && uri[|uri| - |rel|..] == rel &&
         forall i :: |p| <= i < |uri| - |rel| ==> uri[i] == '/') &&
      (rel == [] ==> p == RStrip(uri, '/'))
  {
    var rel := RelativePath(uri, prefix);
    if rel != [] {
      PrefixBeforeSuffix(uri, rel);
    } else {
      assert RemoveSuffix(uri, rel) == uri;
    }
  }

  /** `MatchPrefix` of a non-empty suffix `rel` of `uri`: what precedes
      `rel`, less the slashes just before it. */
  lemma PrefixBeforeSuffix(uri: string, rel: string)
    requires rel != [] && |rel| <= |uri| && uri[|uri| - |rel|..] == rel
    ensures var p := MatchPrefix(uri, rel);
      |p| + |rel| <= |uri| && uri[..|p|] == p &&
      forall i :: |p| <= i < |uri| - |rel| ==> uri[i] == '/'
  {
    assert EndsWith(uri, rel);
    var head := RemoveSuffix(uri, rel);
    assert head == uri[..|uri| - |rel|];
    var p := RStrip(head, '/');
    assert uri[..|p|] == head[..|p|];
    assert forall i :: |p| <= i < |head| ==> uri[i] == head[i];
  }

  /** A file joined under the release URI is made relative to exactly the
      path it was joined with. */
  lemma RelativizeJoined(releaseUri: string, workPath: string, path: string)
    requires releaseUri != [] && (path == [] || path[0] != '/')
    ensures Relativize(releaseUri + "/" + path, releaseUri, workPath) == path
  {
    var f := releaseUri + "/" + path;
    assert f[..|releaseUri|] == releaseUri;
    var rest := f[|releaseUri|..];
    assert rest == "/" + path;
    assert rest[1..] == path;
    assert LStrip(path, '/') == path;
  }

  /** Splitting a path joined from a directory and a file name gives
      them back. */
  lemma SplitPathJoined(dir: string, name: string)
    requires '/' !in name
    ensures SplitPath(dir + "/" + name) == (dir, name)
  {
    RPartitionJoined(dir, '/', name);
  }

  /** Splitting a file name joined from a non-empty stem and an extension
      without dots gives them back. */
  lemma SplitNameJoined(stem: string, ext: string)
    requires stem != [] && '.' !in ext
    ensures SplitName(stem + "." + ext) == (stem, ext)
  {
    RPartitionJoined(stem, '.', ext);
  }

  /** A file `dir/stem.ext` under the release URI whose release-relative
      path does not start with the glob prefix keeps that whole path as
      `uri`, has an empty `match_prefix`, and its directory, stem and
      extension as `match_path`, `match_stem` and `match_ext`. */
  lemma DecomposeUnderRelease(releaseUri: string, workPath: string, prefix: string,
                              dir: string, stem: string, ext: string)
    requires releaseUri != [] && dir != [] && dir[0] != '/'
    requires stem != [] && '/' !in stem && '/' !in ext && '.' !in ext
    requires !StartsWith(dir + "/" + (stem + "." + ext), prefix)
    ensures var uri := dir + "/" + (stem + "." + ext);
      Decompose(releaseUri + "/" + uri, releaseUri, workPath, prefix) == Match(uri, "", dir, stem, ext)
  {
    var name := stem + "." + ext;
    var uri := dir + "/" + name;
    assert uri[0] == dir[0];
    RelativizeJoined(releaseUri, workPath, uri);
    assert RemovePrefix(uri, prefix) == uri;
    assert LStrip(uri, '/') == uri;
    assert RelativePath(uri, prefix) == uri;
    assert EndsWith(uri, uri);
    assert RemoveSuffix(uri, uri) == [];
    assert '/' !in name by {
      assert forall i :: 0 <= i < |name| ==> name[i] in stem || name[i] == '.' || name[i] in ext;
    }
    SplitPathJoined(dir, name);
    SplitNameJoined(stem, ext);
  }

  /** The glob prefix of the documented example is everything before `**`. */
  lemma ExampleGlobPrefix()
    ensures Util.SplitGlobOf("gs://release-25/input/items/**/*.json").0 == "gs://release-25/input/items/"
  {
    var g := "gs://release-25/input/items/**/*.json";
    assert Util.SplitsAt(g, 28);
    assert forall j :: 0 <= j < 28 ==> !Util.SplitsAt(g, j);
    var k := Util.FirstSplit(g, 0);
    assert k == 28;
  }

  /** The example of the task's documentation, file
      `gs://release-25/input/items/furniture/chair.json` matched by glob
      `gs://release-25/input/items/**/*.json`. The documentation gives
      `match_prefix` as `input/items/` and `match_path` as `furniture`, but
      the glob prefix is an absolute URI that the release-relative `uri`
      never starts with, so nothing is removed from it: `match_prefix` is
      empty and `match_path` is the whole directory part. */
  lemma DocumentedExample()
    ensures var uri := "input/items/furniture" + "/" + ("chair" + "." + "json");
      Decompose("gs://release-25" + "/" + uri, "gs://release-25", "work",
                Util.SplitGlobOf("gs://release-25/input/items/**/*.json").0)
      == Match(uri, "", "input/items/furniture", "chair", "json")
  {
    ExampleGlobPrefix();
    var prefix := "gs://release-25/input/items/";
    var uri := "input/items/furniture" + "/" + ("chair" + "." + "json");
    assert uri[0] == 'i' && prefix[0] == 'g';
    DecomposeUnderRelease("gs://release-25", "work", prefix, "input/items/furniture", "chair", "json");
  }

  // ---- the `(?<!:)//+` -> `/` clean-up

  /** The number of slashes starting at index `i`. */
  function SlashRun(s: string, i: nat): (n: nat)
    requires i <= |s|
    ensures i + n <= |s|
    ensures forall j :: i <= j < i + n ==> s[j] == '/'
    ensures i + n < |s| ==> s[i + n] != '/'
    decreases |s| - i
  {
    if i < |s| && s[i] == '/' then 1 + SlashRun(s, i + 1) else 0
  }

  /** `re.sub(r'(?<!:)//+', '/', s[i:])` with `s[i-1]` as the look-behind
      character: a run of two or more slashes not preceded by `:` becomes
      one slash; scanning resumes after the run. */
  function CollapseFrom(s: string, i: nat): (r: string)
    requires i <= |s|
    ensures |r| <= |s| - i
    ensures i < |s| ==> |r| > 0 && r[0] == s[i]
    decreases |s| - i
  {
    if i == |s| then []
    else
      var n := SlashRun(s, i);
      if n >= 2 && (i == 0 || s[i - 1] != ':') then "/" + CollapseFrom(s, i + n)
      else [s[i]] + CollapseFrom(s, i + 1)
  }

  function Collapse(s: string): string {
    CollapseFrom(s, 0)
  }

  /** Every `//` in `r` is preceded by `:`, taking `before` as the character
      in front of `r`. */
  predicate CleanAfter(before: char, r: string) {
    forall j :: 0 <= j < |r| - 1 && r[j] == '/' && r[j + 1] == '/' ==>
      (if j == 0 then before else r[j - 1]) == ':'
  }

  lemma {:induction false} CollapseFromClean(s: string, i: nat)
    requires 0 < i <= |s|
    ensures CleanAfter(s[i - 1], CollapseFrom(s, i))
    decreases |s| - i
  {
    if i < |s| {
      var n := SlashRun(s, i);
      var r := CollapseFrom(s, i);
      if n >= 2 && s[i - 1] != ':' {
        var rest := CollapseFrom(s, i + n);
        if i + n < |s| {
          CollapseFromClean(s, i + n);
          assert s[i + n - 1] == '/';
        }
        assert r == "/" + rest;
        forall j | 0 <= j < |r| - 1 && r[j] == '/' && r[j + 1] == '/'
          ensures (if j == 0 then s[i - 1] else r[j - 1]) == ':'
        {
          assert j > 0;
          assert rest[j - 1] == '/' && rest[j] == '/';
        }
      } else {
        var rest := CollapseFrom(s, i + 1);
        if i + 1 < |s| {
          CollapseFromClean(s, i + 1);
        }
        assert r == [s[i]] + rest;
        forall j | 0 <= j < |r| - 1 && r[j] == '/' && r[j + 1] == '/'
          ensures (if j == 0 then s[i - 1] else r[j - 1]) == ':'
        {
          if j == 0 {
            assert s[i] == '/' && s[i + 1] == '/';
            assert SlashRun(s, i + 1) >= 1;
          } else {
            assert rest[j - 1] == '/' && rest[j] == '/';
          }
        }
      }
    }
  }

  /** After the clean-up every `//` left in a string is immediately
      preceded by `:` (as in `gs://`). */
  lemma CollapseClean(s: string)
    ensures var r := Collapse(s);
      forall j :: 0 <= j < |r| - 1 && r[j] == '/' && r[j + 1] == '/' ==> j > 0 && r[j - 1] == ':'
  {
    var r := Collapse(s);
    if |s| > 0 {
      var n := SlashRun(s, 0);
      if n >= 2 {
        var rest := CollapseFrom(s, n);
        if n < |s| {
          CollapseFromClean(s, n);
        }
        assert r == "/" + rest;
        forall j | 0 <= j < |r| - 1 && r[j] == '/' && r[j + 1] == '/'
          ensures j > 0 && r[j - 1] == ':'
        {
          assert j > 0;
          assert rest[j - 1] == '/' && rest[j] == '/';
        }
      } else {
        var rest := CollapseFrom(s, 1);
        if 1 < |s| {
          CollapseFromClean(s, 1);
        }
        assert r == [s[0]] + rest;
        if |r| > 1 && r[0] == '/' {
          assert s[0] == '/' && SlashRun(s, 0) == 1;
          assert r[1] == s[1] != '/';
        }
        forall j | 0 < j < |r| - 1 && r[j] == '/' && r[j + 1] == '/'
          ensures r[j - 1] == ':'
        {
          assert rest[j - 1] == '/' && rest[j] == '/';
        }
      }
    }
  }

  /** A string without `//` is left as it is. */
  lemma {:induction false} CollapseFromNoDouble(s: string, i: nat)
    requires i <= |s|
    requires forall j :: 0 <= j < |s| - 1 ==> !(s[j] == '/' && s[j + 1] == '/')
    ensures CollapseFrom(s, i) == s[i..]
    decreases |s| - i
  {
    if i < |s| {
      if s[i] == '/' && i + 1 < |s| {
        assert s[i + 1] != '/';
      }
      CollapseFromNoDouble(s, i + 1);
      assert s[i..] == [s[i]] + s[i + 1..];
    }
  }

  // ---- subtask expansion

  /** A value in a spec's dumped model: text, or anything else. */
  datatype Field = Text(text: string) | Other(value: int)

  type Model = seq<(string, Field)>

  function CleanField(v: Field): Field {
    match v
    case Text(t) => Text(Collapse(t))
    case Other(_) => v
  }

  /** The six scratchpad keys `run` stores under, by their names. */
  datatype Key = Uri | MatchPrefixKey | MatchPath | MatchStem | MatchExt | Uuid

  function KeyName(k: Key): string {
    match k
    case Uri => "uri"
    case MatchPrefixKey => "match_prefix"
    case MatchPath => "match_path"
    case MatchStem => "match_stem"
    case MatchExt => "match_ext"
    case Uuid => "uuid"
  }

  /** The task's private scratchpad, keyed by the names above. */
  type Scratchpad = map<Key, string>

  /** The scratchpad after the six values of one file are stored. */
  function Stored(sp: Scratchpad, m: Match, uuid: string): Scratchpad
  {
    sp[Uri := m.uri][MatchPrefixKey := m.matchPrefix][MatchPath := m.matchPath]
      [MatchStem := m.matchStem][MatchExt := m.matchExt][Uuid := uuid]
  }

  /** Storing the next file's values overwrites all of the previous one's. */
  lemma StoredOverwrites(sp: Scratchpad, a: Match, ua: string, b: Match, ub: string)
    ensures Stored(Stored(sp, a, ua), b, ub) == Stored(sp, b, ub)
  {
  }

  /** One subtask model: the `do` spec with the scratchpad values of the
      file filled in (`replace`, the unseen `Scratchpad.replace_dict`) and
      the doubled slashes cleaned out of its text fields. */
  function Subtask(sp: Scratchpad, doSpec: Model, replace: (Scratchpad, Model) -> Model): Model {
    Cleaned(replace(sp, doSpec))
  }

  /** A model with the doubled slashes cleaned out of its text values:
      same keys in the same order, text collapsed, other values kept. */
  function Cleaned(model: Model): (r: Model)
    ensures |r| == |model|
    ensures forall k :: 0 <= k < |r| ==> r[k].0 == model[k].0
    ensures forall k :: 0 <= k < |r| ==> (model[k].1.Text? ==> r[k].1 == Text(Collapse(model[k].1.text)))
    ensures forall k :: 0 <= k < |r| ==> (model[k].1.Other? ==> r[k].1 == model[k].1)
  {
    if model == [] then [] else [(model[0].0, CleanField(model[0].1))] + Cleaned(model[1..])
  }

  /** The decomposition of every matched file, in listing order. */
  function Matches(files: seq<string>, releaseUri: string, workPath: string, prefix: string): (r: seq<Match>)
    ensures |r| == |files|
    ensures forall a :: 0 <= a < |files| ==> r[a] == Decompose(files[a], releaseUri, workPath, prefix)
  {
    seq(|files|, a requires 0 <= a < |files| => Decompose(files[a], releaseUri, workPath, prefix))
  }

  /** The scratchpad each matched file's subtasks are filled from: the
      scratchpad `sp` with the six values of file `a` stored. */
  function Scratches(sp: Scratchpad, matches: seq<Match>, uuid: nat -> string): (r: seq<Scratchpad>)
    ensures |r| == |matches|
    ensures forall a :: 0 <= a < |matches| ==> r[a] == Stored(sp, matches[a], uuid(a))
  {
    seq(|matches|, a requires 0 <= a < |matches| => Stored(sp, matches[a], uuid(a)))
  }

  /** The subtasks of the first `n` files, file-major and in `do` order. */
  function Expansion(scratches: seq<Scratchpad>, n: nat, doSpecs: seq<Model>,
                     replace: (Scratchpad, Model) -> Model): seq<Model>
    requires n <= |scratches|
  {
    if n == 0 then []
    else Expansion(scratches, n - 1, doSpecs, replace) + FileSubtasks(scratches[n - 1], doSpecs, replace)
  }

  /** The subtasks of one file, in `do` order. */
  function FileSubtasks(filled: Scratchpad, doSpecs: seq<Model>,
                        replace: (Scratchpad, Model) -> Model): (r: seq<Model>)
    ensures |r| == |doSpecs|
    ensures forall j :: 0 <= j < |doSpecs| ==> r[j] == Subtask(filled, doSpecs[j], replace)
  {
    seq(|doSpecs|, j requires 0 <= j < |doSpecs| => Subtask(filled, doSpecs[j], replace))
  }

  lemma MulSucc(n: nat, b: nat)
    requires n > 0
    ensures (n - 1) * b + b == n * b
  {
  }

  /** The expansion of `n` files holds `n * |do|` subtasks. */
  lemma {:induction false} ExpansionLength(scratches: seq<Scratchpad>, n: nat, doSpecs: seq<Model>,
                                           replace: (Scratchpad, Model) -> Model)
    requires n <= |scratches|
    ensures |Expansion(scratches, n, doSpecs, replace)| == n * |doSpecs|
  {
    if n > 0 {
      ExpansionLength(scratches, n - 1, doSpecs, replace);
      MulSucc(n, |doSpecs|);
    }
  }

  /** The subtasks of file `a` follow those of the files before it, in
      `do` order. */
  lemma {:induction false} BlockAt(scratches: seq<Scratchpad>, n: nat, doSpecs: seq<Model>,
                                   replace: (Scratchpad, Model) -> Model, a: nat, j: nat)
    requires a < n <= |scratches| && j < |doSpecs|
    ensures var k := |Expansion(scratches, a, doSpecs, replace)| + j;
      k < |Expansion(scratches, n, doSpecs, replace)| &&
      Expansion(scratches, n, doSpecs, replace)[k] == FileSubtasks(scratches[a], doSpecs, replace)[j]
  {
    if a < n - 1 {
      BlockAt(scratches, n - 1, doSpecs, replace, a, j);
    }
  }

  /** File-major order: the subtask at `a * |do| + j` is spec `j` of the
      `do` list filled from file `a`'s scratchpad. */
  lemma ExpansionAt(scratches: seq<Scratchpad>, n: nat, doSpecs: seq<Model>,
                    replace: (Scratchpad, Model) -> Model, a: nat, j: nat)
    requires a < n <= |scratches| && j < |doSpecs|
    ensures var e := Expansion(scratches, n, doSpecs, replace);
      a * |doSpecs| + j < |e| && e[a * |doSpecs| + j] == Subtask(scratches[a], doSpecs[j], replace)
  {
    ExpansionLength(scratches, a, doSpecs, replace);
    BlockAt(scratches, n, doSpecs, replace, a, j);
  }

  /** The `explode_glob` task: the parsed `glob` and `do` fields, its
      private scratchpad and the queue subtask specs are put on. */
  class ExplodeGlobTask {
    const glob: string
    const doSpecs: seq<Model>
    var scratchpad: Scratchpad
    var subQueue: seq<Model>

    constructor (glob: string, doSpecs: seq<Model>)
      ensures this.glob == glob && this.doSpecs == doSpecs
      ensures scratchpad == map[] && subQueue == []
    {
      this.glob := glob;
      this.doSpecs := doSpecs;
      scratchpad := map[];
      subQueue := [];
    }

    /** Store one file's values in the scratchpad. */
    method Store(m: Match, id: string)
      modifies this`scratchpad
      ensures scratchpad == Stored(old(scratchpad), m, id)
    {
      scratchpad := scratchpad[Uri := m.uri];
      scratchpad := scratchpad[MatchPrefixKey := m.matchPrefix];
      scratchpad := scratchpad[MatchPath := m.matchPath];
      scratchpad := scratchpad[MatchStem := m.matchStem];
      scratchpad := scratchpad[MatchExt := m.matchExt];
      scratchpad := scratchpad[Uuid := id];
    }

    /** The inner loop of `run`: one subtask per `do` entry, filled from the
        current scratchpad and cleaned, queued in order. */
    method QueueSubtasks(replace: (Scratchpad, Model) -> Model) returns (n: nat)
      modifies this`subQueue
      ensures n == |doSpecs|
      ensures subQueue == old(subQueue) + FileSubtasks(scratchpad, doSpecs, replace)
    {
      n := 0;
      var j := 0;
      while j < |doSpecs|
        invariant 0 <= j <= |doSpecs| && n == j
        invariant subQueue == old(subQueue) + FileSubtasks(scratchpad, doSpecs, replace)[..j]
      {
        var replaced := replace(scratchpad, doSpecs[j]);
        replaced := CleanModel(replaced);
        assert FileSubtasks(scratchpad, doSpecs, replace)[..j + 1] ==
               FileSubtasks(scratchpad, doSpecs, replace)[..j] + [replaced];
        subQueue := subQueue + [replaced];
        n := n + 1;
        j := j + 1;
      }
      assert FileSubtasks(scratchpad, doSpecs, replace)[..|doSpecs|] == FileSubtasks(scratchpad, doSpecs, replace);
    }

    /** `ExplodeGlob.run`, given the files the glob matches (`files`), the
        configuration's release URI and work path, the source of fresh
        UUIDs (`uuid(a)` for file `a`) and the scratchpad substitution.
        Every subtask model it builds is queued, file-major and in `do`
        order, and the count is returned. The subtask queue is bound only
        inside the loop over the files, so an empty listing raises
        UnboundLocalError at the final `join`, after queueing nothing. */
    method Run(files: seq<string>, releaseUri: string, workPath: string,
               uuid: nat -> string, replace: (Scratchpad, Model) -> Model)
      returns (r: Outcome<nat, Error>)
      modifies this`scratchpad, this`subQueue
      ensures r.Err? <==> files == []
      ensures r.Err? ==> r.error == UnboundLocalError
      ensures r.Ok? ==> r.value == |files| * |doSpecs|
      ensures subQueue == old(subQueue) +
        Expansion(Scratches(old(scratchpad), Matches(files, releaseUri, workPath, Util.SplitGlobOf(glob).0), uuid),
                  |files|, doSpecs, replace)
      ensures files != [] ==>
        scratchpad ==
          Scratches(old(scratchpad), Matches(files, releaseUri, workPath, Util.SplitGlobOf(glob).0), uuid)[|files| - 1]
      ensures files == [] ==> scratchpad == old(scratchpad)
    {
      var prefix, _ := Util.SplitGlob(glob);
      var matches := Matches(files, releaseUri, workPath, prefix);
      var newTasks := ExplodeMatches(matches, uuid, replace);
      if files == [] {
        return Err(UnboundLocalError);
      }
      r := Ok(newTasks);
    }

    /** The loop of `run` over the decomposed files: store file `a`'s values
        in the scratchpad, then queue one subtask per `do` entry. */
    method ExplodeMatches(matches: seq<Match>, uuid: nat -> string, replace: (Scratchpad, Model) -> Model)
      returns (newTasks: nat)
      modifies this`scratchpad, this`subQueue
      ensures newTasks == |matches| * |doSpecs|
      ensures subQueue == old(subQueue) +
        Expansion(Scratches(old(scratchpad), matches, uuid), |matches|, doSpecs, replace)
      ensures matches != [] ==> scratchpad == Scratches(old(scratchpad), matches, uuid)[|matches| - 1]
      ensures matches == [] ==> scratchpad == old(scratchpad)
    {
      ghost var scratches := Scratches(scratchpad, matches, uuid);
      newTasks := 0;
      var a := 0;
      while a < |matches|
        invariant 0 <= a <= |matches|
        invariant newTasks == a * |doSpecs|
        invariant subQueue == old(subQueue) + Expansion(scratches, a, doSpecs, replace)
        invariant a > 0 ==> scratchpad == scratches[a - 1]
        invariant a == 0 ==> scratchpad == old(scratchpad)
      {
        Store(matches[a], uuid(a));
        assert scratchpad == scratches[a] by {
          if a > 0 {
            StoredOverwrites(old(scratchpad), matches[a - 1], uuid(a - 1), matches[a], uuid(a));
          }
        }
        ghost var e := Expansion(scratches, a, doSpecs, replace);
        var queued := QueueSubtasks(replace);
        assert subQueue == old(subQueue) + Expansion(scratches, a + 1, doSpecs, replace) by {
          ghost var fs := FileSubtasks(scratches[a], doSpecs, replace);
          assert Expansion(scratches, a + 1, doSpecs, replace) == e + fs;
          Seqs.AppendAssoc(old(subQueue), e, fs);
        }
        newTasks := newTasks + queued;
        MulSucc(a + 1, |doSpecs|);
        a := a + 1;
      }
    }
  }

  /** The clean-up loop of `run`: every text value of the model has its
      doubled slashes collapsed; keys, order and other values stay. */
  method CleanModel(model: Model) returns (r: Model)
    ensures r == Cleaned(model)
  {
    r := model;
    var k := 0;
    while k < |r|
      invariant 0 <= k <= |r| == |model|
      invariant forall i :: 0 <= i < |r| ==> r[i].0 == model[i].0
      invariant forall i :: 0 <= i < k ==> r[i].1 == CleanField(model[i].1)
      invariant forall i :: k <= i < |r| ==> r[i] == model[i]
    {
      match r[k].1 {
        case Text(t) => r := r[k := (r[k].0, Text(Collapse(t)))];
        case Other(_) =>
      }
      k := k + 1;
    }
    assert r == Cleaned(model) by {
      var c := Cleaned(model);
      assert forall i :: 0 <= i < |r| ==> r[i] == (c[i].0, c[i].1);
    }
  }
}
