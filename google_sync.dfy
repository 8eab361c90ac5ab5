/** The synchronous Google Cloud Storage backend: URI parsing, `stat`,
    `glob`, the stable download loop, `write` and `copy_within`, over the
    client's answers. */
module GoogleSync {
  import opened Wrappers
  import opened Errors
  import opened Strings
  import opened GoogleApi
  import Handle

  /** `_parse_uri`: drop every "gs://", then the bucket is the text before
      the first '/' and the blob the rest, or "" when there is no '/'. */
  function ParseUri(uri: string): (r: (string, string))
    ensures '/' !in r.0
    ensures var s := ReplaceAll(uri, "gs://", "");
      ('/' in s ==> r.0 + "/" + r.1 == s) && ('/' !in s ==> r == (s, ""))
  {
    var parts := SplitFirstChar(ReplaceAll(uri, "gs://", ""), '/');
    (parts.0, parts.1.GetOr(""))
  }

  /** Round trip: a URI written as "gs://", a bucket, '/' and a blob name
      parses back to that bucket and blob, as long as no further "gs://"
      hides in them. */
  lemma ParseUriJoined(bucket: string, blob: string)
    requires '/' !in bucket && !HasInfix(bucket + "/" + blob, "gs://")
    ensures ParseUri("gs://" + bucket + "/" + blob) == (bucket, blob)
  {
    var tail := bucket + "/" + blob;
    assert "gs://" + bucket + "/" + blob == "gs://" + tail;
    DropLeadingScheme(tail);
    SplitFirstSlashJoined(bucket, blob);
  }

  /** Dropping every "gs://" from "gs://" and a text that holds none
      leaves the text. */
  lemma DropLeadingScheme(t: string)
    requires !HasInfix(t, "gs://")
    ensures ReplaceAll("gs://" + t, "gs://", "") == t
  {
    var uri := "gs://" + t;
    assert StartsWith(uri, "gs://") && uri[5..] == t;
    ReplaceAllAbsent(t, "gs://", "");
  }

  /** A string made of a head without '/', a '/' and a tail splits at
      that '/'. */
  lemma SplitFirstSlashJoined(a: string, b: string)
    requires '/' !in a
    ensures SplitFirstChar(a + "/" + b, '/') == (a, Some(b))
  {
    var s := a + "/" + b;
    assert s[|a|] == '/';
    assert forall j :: 0 <= j < |a| ==> s[j] == a[j];
    assert IndexOf(s, '/') == Some(|a|);
    assert s[..|a|] == a && s[|a| + 1..] == b;
  }

  /** The bucket root parses to an empty blob. */
  lemma ParseUriBucketRoot(bucket: string)
    requires '/' !in bucket && !HasInfix(bucket, "gs://")
    ensures ParseUri("gs://" + bucket) == (bucket, "")
  {
    DropLeadingScheme(bucket);
  }

  /** The listing prefix `glob` and `stat` use for a directory: the
      prefix itself when it ends with '/', the prefix and a '/' when it
      is non-empty otherwise, and "" for the bucket root. */
  function SearchPrefix(prefix: string): (r: string)
    ensures StartsWith(r, prefix) && |r| <= |prefix| + 1
    ensures r == "" <==> prefix == ""
    ensures r != "" ==> EndsWith(r, "/")
    ensures EndsWith(prefix, "/") ==> r == prefix
  {
    if EndsWith(prefix, "/") then prefix
    else if prefix != "" then
      assert (prefix + "/")[..|prefix|] == prefix;
      prefix + "/"
    else ""
  }

  /** Taking the directory prefix twice changes nothing. */
  lemma SearchPrefixIdempotent(prefix: string)
    ensures SearchPrefix(SearchPrefix(prefix)) == SearchPrefix(prefix)
  {
  }

  /** `str(generation) if generation else None`: no generation and
      generation 0 both give no revision. */
  function Revision(generation: Option<int>): (r: Option<int>)
    ensures r.None? <==> generation.None? || generation.value == 0
    ensures r.Some? ==> r == generation
  {
    if generation.None? || generation.value == 0 then None else generation
  }

  /** What `stat` returns for a directory (a bucket root or a prefix with
      objects under it). */
  const DirStat := Handle.Stat(true, false, Some(0), None, None)

  /** `stat`: a bucket root is a directory with no client call; otherwise
      the blob's metadata is reloaded. When the blob is not found, a
      listing of one object under the directory prefix decides between a
      directory and NotFoundError, and a failing listing is a
      StorageError; any other reload failure passes through unchanged. */
  function Stat(location: string, reload: (string, string) -> Outcome<(Option<int>, Option<int>), ApiError>,
                listOne: (string, string) -> Outcome<bool, ApiError>)
    : (r: Outcome<Handle.Stat, Error>)
    ensures var (bucket, blob) := ParseUri(location);
      (blob == "" ==> r == Ok(DirStat)) &&
      (blob != "" && reload(bucket, blob).Ok? ==>
        r.Ok? && r.value.isReg && !r.value.isDir &&
        r.value.size == Some(reload(bucket, blob).value.0.GetOr(0)) &&
        r.value.revision == Revision(reload(bucket, blob).value.1)) &&
      (blob != "" && reload(bucket, blob).Err? && reload(bucket, blob).error.kind != NotFoundKind ==>
        r == Err(OtherError(reload(bucket, blob).error.message))) &&
      (blob != "" && reload(bucket, blob).Err? && reload(bucket, blob).error.kind == NotFoundKind ==>
        r == (match listOne(bucket, SearchPrefix(blob))
              case Err(_) => Err(StorageError)
              case Ok(found) => if found then Ok(DirStat) else Err(NotFoundError(location))))
  {
    var (bucket, blob) := ParseUri(location);
    if blob == "" then Ok(DirStat)
    else
      match reload(bucket, blob)
      case Ok((size, generation)) => Ok(Handle.Stat(false, true, Some(size.GetOr(0)), Revision(generation), None))
      case Err(e) =>
        if e.kind != NotFoundKind then Err(OtherError(e.message))
        else
          match listOne(bucket, SearchPrefix(blob))
          case Err(_) => Err(StorageError)
          case Ok(found) => if found then Ok(DirStat) else Err(NotFoundError(location))
  }

  /** Whatever the client would answer, a bucket root is a directory of
      size 0. */
  lemma StatBucketRootAsksNothing(bucket: string, reload: (string, string) -> Outcome<(Option<int>, Option<int>), ApiError>,
                                  listOne: (string, string) -> Outcome<bool, ApiError>)
    requires '/' !in bucket && !HasInfix(bucket, "gs://")
    ensures Stat("gs://" + bucket, reload, listOne) == Ok(DirStat)
    ensures DirStat.isDir && DirStat.size == Some(0)
  {
    ParseUriBucketRoot(bucket);
  }

  /** The URI `glob` reports for a listed object. */
  function BlobUri(bucket: string, name: string): string {
    "gs://" + bucket + "/" + name
  }

  /** `glob`: list the objects under the directory prefix that match the
      pattern and report their URIs in listing order; a failing listing
      is a StorageError. */
  function Glob(location: string, pattern: string, list: (string, string, string) -> Outcome<seq<string>, ApiError>)
    : (r: Outcome<seq<string>, Error>)
    ensures var (bucket, prefix) := ParseUri(location);
      var listed := list(bucket, SearchPrefix(prefix), pattern);
      (r.Err? <==> listed.Err?) && (r.Err? ==> r.error == StorageError) &&
      (r.Ok? ==> |r.value| == |listed.value| &&
                 forall i :: 0 <= i < |r.value| ==> r.value[i] == BlobUri(bucket, listed.value[i]))
  {
    var (bucket, prefix) := ParseUri(location);
    match list(bucket, SearchPrefix(prefix), pattern)
    case Err(_) => Err(StorageError)
    case Ok(names) => Ok(seq(|names|, i requires 0 <= i < |names| => BlobUri(bucket, names[i])))
  }

  /** Every URI `glob` reports parses back to the listed bucket and object
      name. */
  lemma GlobUrisParseBack(location: string, pattern: string, list: (string, string, string) -> Outcome<seq<string>, ApiError>,
                          i: nat)
    requires Glob(location, pattern, list).Ok? && i < |Glob(location, pattern, list).value|
    requires var (bucket, prefix) := ParseUri(location);
      !HasInfix(bucket + "/" + list(bucket, SearchPrefix(prefix), pattern).value[i], "gs://")
    ensures var (bucket, prefix) := ParseUri(location);
      ParseUri(Glob(location, pattern, list).value[i]) == (bucket, list(bucket, SearchPrefix(prefix), pattern).value[i])
  {
    var (bucket, prefix) := ParseUri(location);
    var name := list(bucket, SearchPrefix(prefix), pattern).value[i];
    assert Glob(location, pattern, list).value[i] == "gs://" + bucket + "/" + name;
    ParseUriJoined(bucket, name);
  }

  /** How `read` classifies a client failure: a missing object is
      NotFoundError, a message mentioning a timeout in any case is
      TimeoutError, anything else a StorageError. */
  function ClassifyRead(e: ApiError, location: string): (r: Error)
    ensures e.kind == NotFoundKind ==> r == NotFoundError(location)
    ensures e.kind != NotFoundKind && HasInfix(Lower(e.message), "timeout") ==> r == TimeoutError
    ensures e.kind != NotFoundKind && !HasInfix(Lower(e.message), "timeout") ==> r == StorageError
  {
    if e.kind == NotFoundKind then NotFoundError(location)
    else if HasInfix(Lower(e.message), "timeout") then TimeoutError
    else StorageError
  }

  /** `read`: the download loop with the synchronous revision rule. */
  method Read(location: string, rounds: seq<Round>) returns (r: Option<Outcome<(string, Option<int>), Error>>)
    ensures r == ReadOutcome(rounds, location, Revision, ClassifyRead)
  {
    r := ReadLoop(rounds, location, Revision, ClassifyRead);
  }

  /** Every error `read` raises is a storage error or a timeout. */
  lemma ReadErrorsClassified(rounds: seq<Round>, location: string)
    requires ReadOutcome(rounds, location, Revision, ClassifyRead).Some?
    requires ReadOutcome(rounds, location, Revision, ClassifyRead).value.Err?
    ensures var e := ReadOutcome(rounds, location, Revision, ClassifyRead).value.error;
      IsStorageError(e) || e == TimeoutError
  {
  }

  /** `read_text`: the read, with content that does not decode turned into
      a StorageError; the revision is kept. */
  function ReadText(read: Option<Outcome<(string, Option<int>), Error>>, decode: string -> Option<string>)
    : (r: Option<Outcome<(string, Option<int>), Error>>)
    ensures r.None? <==> read.None?
    ensures read.Some? && read.value.Err? ==> r == read
    ensures read.Some? && read.value.Ok? ==>
      var (data, revision) := read.value.value;
      r == Some(if decode(data).None? then Err(StorageError) else Ok((decode(data).value, revision)))
  {
    match read
    case None => None
    case Some(Err(e)) => Some(Err(e))
    case Some(Ok((data, revision))) =>
      match decode(data)
      case None => Some(Err(StorageError))
      case Some(text) => Some(Ok((text, revision)))
  }

  /** `write`: upload, passing the expected revision as the generation to
      match only when one is given; a failed precondition is
      PreconditionFailedError and any other failure a StorageError; the
      new generation becomes the revision. */
  function Write(location: string, data: string, expected: Option<int>,
                 upload: (string, string, string, Option<int>) -> Outcome<Option<int>, ApiError>)
    : (r: Outcome<Option<int>, Error>)
    ensures var (bucket, blob) := ParseUri(location);
      var u := upload(bucket, blob, data, expected);
      (u.Ok? ==> r == Ok(Revision(u.value))) &&
      (u.Err? ==> r == Err(if u.error.kind == PreconditionKind then PreconditionFailedError else StorageError))
  {
    var (bucket, blob) := ParseUri(location);
    match upload(bucket, blob, data, expected)
    case Ok(generation) => Ok(Revision(generation))
    case Err(e) => if e.kind == PreconditionKind then Err(PreconditionFailedError) else Err(StorageError)
  }

  /** An unconditional write never reports a generation mismatch, as long
      as the client only reports one for a conditional upload. */
  lemma UnconditionalWriteNoMismatch(location: string, data: string,
                                     upload: (string, string, string, Option<int>) -> Outcome<Option<int>, ApiError>)
    requires forall b, n, d :: upload(b, n, d, None).Err? ==> upload(b, n, d, None).error.kind != PreconditionKind
    ensures Write(location, data, None, upload) != Err(PreconditionFailedError)
  {
    var (bucket, blob) := ParseUri(location);
    assert upload(bucket, blob, data, None).Err? ==> upload(bucket, blob, data, None).error.kind != PreconditionKind;
  }

  /** `copy_within`: a server-side copy; a missing object is NotFoundError
      naming the source, any other failure a StorageError. */
  function CopyWithin(src: string, dst: string,
                      copy: (string, string, string, string) -> Outcome<Option<int>, ApiError>)
    : (r: Outcome<Option<int>, Error>)
    ensures var (sb, sn) := ParseUri(src);
      var (db, dn) := ParseUri(dst);
      var c := copy(sb, sn, db, dn);
      (c.Ok? ==> r == Ok(Revision(c.value))) &&
      (c.Err? ==> r == Err(if c.error.kind == NotFoundKind then NotFoundError(src) else StorageError))
  {
    var (sb, sn) := ParseUri(src);
    var (db, dn) := ParseUri(dst);
    match copy(sb, sn, db, dn)
    case Ok(generation) => Ok(Revision(generation))
    case Err(e) => if e.kind == NotFoundKind then Err(NotFoundError(src)) else Err(StorageError)
  }
}
