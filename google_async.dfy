/** The asynchronous Google Cloud Storage backend: `stat`, `glob`, the
    download loop, `write` with its generation header, and
    `copy_within`. It parses URIs exactly as the synchronous backend. */
module GoogleAsync {
  import opened Wrappers
  import opened Errors
  import opened Strings
  import opened GoogleApi
  import GoogleSync
  import Handle

  /** `stat`: a bucket root is a directory with no client call; otherwise
      the object's metadata gives a regular file. Any metadata failure,
      not only a missing object, falls back to listing the directory
      prefix: objects under it make a directory, none a NotFoundError, and
      a failing listing a StorageError. */
  function Stat(location: string, metadata: (string, string) -> Outcome<(Option<int>, Option<int>), ApiError>,
                list: (string, string) -> Outcome<seq<string>, ApiError>)
    : (r: Outcome<Handle.Stat, Error>)
    ensures var (bucket, blob) := GoogleSync.ParseUri(location);
      (blob == "" ==> r == Ok(GoogleSync.DirStat)) &&
      (blob != "" && metadata(bucket, blob).Ok? ==>
        r == Ok(Handle.Stat(false, true, Some(metadata(bucket, blob).value.0.GetOr(0)), metadata(bucket, blob).value.1, None))) &&
      (blob != "" && metadata(bucket, blob).Err? ==>
        var listed := list(bucket, GoogleSync.SearchPrefix(blob));
        (listed.Err? ==> r == Err(StorageError)) &&
        (listed.Ok? ==> r == if listed.value != [] then Ok(GoogleSync.DirStat) else Err(NotFoundError(location))))
  {
    var (bucket, blob) := GoogleSync.ParseUri(location);
    if blob == "" then Ok(GoogleSync.DirStat)
    else
      match metadata(bucket, blob)
      case Ok((size, generation)) => Ok(Handle.Stat(false, true, Some(size.GetOr(0)), generation, None))
      case Err(_) =>
        match list(bucket, GoogleSync.SearchPrefix(blob))
        case Err(_) => Err(StorageError)
        case Ok(blobs) => if blobs != [] then Ok(GoogleSync.DirStat) else Err(NotFoundError(location))
  }

  /** Unlike the synchronous backend, a metadata failure of any kind, a
      timeout included, is answered from the listing: the asynchronous
      `stat` never passes a client failure through. */
  lemma StatNeverPassesClientFailure(location: string,
                                     metadata: (string, string) -> Outcome<(Option<int>, Option<int>), ApiError>,
                                     list: (string, string) -> Outcome<seq<string>, ApiError>)
    ensures Stat(location, metadata, list).Err? ==>
      Stat(location, metadata, list).error == StorageError || Stat(location, metadata, list).error == NotFoundError(location)
  {
  }

  /** The `prefix` argument of the listing in `glob`, as written: the
      directory prefix followed by the pattern, but an empty prefix takes
      neither branch, so the name is unbound when the URI names a bucket
      root. */
  function GlobRequestAsWritten(prefix: string, pattern: string): Outcome<string, Error> {
    if EndsWith(prefix, "/") then Ok(prefix + pattern)
    else if prefix != "" then Ok(prefix + "/" + pattern)
    else Err(UnboundLocalError)
  }

  /** The listing prefix of `glob` as evidently intended: the directory
      prefix of the URI followed by the pattern, which for a bucket root is
      the pattern alone. */
  function GlobRequest(prefix: string, pattern: string): (r: string)
    ensures r == GoogleSync.SearchPrefix(prefix) + pattern
  {
    if EndsWith(prefix, "/") then prefix + pattern
    else if prefix != "" then prefix + "/" + pattern
    else pattern
  }

  /** As written, a glob over a bucket root raises UnboundLocalError
      before listing anything; everywhere else the written and the
      intended request agree. */
  lemma GlobAsWrittenFailsOnBucketRoot(prefix: string, pattern: string)
    ensures prefix == "" ==> GlobRequestAsWritten(prefix, pattern) == Err(UnboundLocalError)
    ensures prefix == "" ==> GlobRequest(prefix, pattern) == pattern
    ensures prefix != "" ==> GlobRequestAsWritten(prefix, pattern) == Ok(GlobRequest(prefix, pattern))
  {
  }

  /** `glob`: list the objects under the request that match the pattern
      and report their URIs in listing order; a failing listing is a
      StorageError. */
  function Glob(location: string, pattern: string, list: (string, string, string) -> Outcome<seq<string>, ApiError>)
    : (r: Outcome<seq<string>, Error>)
    ensures var (bucket, prefix) := GoogleSync.ParseUri(location);
      var listed := list(bucket, GlobRequest(prefix, pattern), pattern);
      (r.Err? <==> listed.Err?) && (r.Err? ==> r.error == StorageError) &&
      (r.Ok? ==> |r.value| == |listed.value| &&
                 forall i :: 0 <= i < |r.value| ==> r.value[i] == GoogleSync.BlobUri(bucket, listed.value[i]))
  {
    var (bucket, prefix) := GoogleSync.ParseUri(location);
    match list(bucket, GlobRequest(prefix, pattern), pattern)
    case Err(_) => Err(StorageError)
    case Ok(names) => Ok(seq(|names|, i requires 0 <= i < |names| => GoogleSync.BlobUri(bucket, names[i])))
  }

  /** The revision the asynchronous client reports: the metadata's
      generation, as it is. */
  function Generation(g: Option<int>): Option<int> {
    g
  }

  /** How `read` classifies a failure: a timeout of either kind is
      TimeoutError; a message naming "Not Found" or "404" is NotFoundError;
      anything else a StorageError. */
  function ClassifyRead(e: ApiError, location: string): (r: Error)
    ensures e.kind == TimeoutKind || e.kind == ServerTimeoutKind ==> r == TimeoutError
    ensures !(e.kind == TimeoutKind || e.kind == ServerTimeoutKind) ==>
      r == (if HasInfix(e.message, "Not Found") || HasInfix(e.message, "404") then NotFoundError(location) else StorageError)
  {
    if e.kind == TimeoutKind || e.kind == ServerTimeoutKind then TimeoutError
    else if HasInfix(e.message, "Not Found") || HasInfix(e.message, "404") then NotFoundError(location)
    else StorageError
  }

  /** `read`: the download loop with the generation as revision. */
  method Read(location: string, rounds: seq<Round>) returns (r: Option<Outcome<(string, Option<int>), Error>>)
    ensures r == ReadOutcome(rounds, location, Generation, ClassifyRead)
  {
    r := ReadLoop(rounds, location, Generation, ClassifyRead);
  }

  /** The two backends disagree on a generation of 0: the synchronous one
      reports no revision and so accepts the first download whatever
      happens to the object, the asynchronous one compares it like any
      other generation. */
  lemma GenerationZeroDiffers(location: string, data: string)
    ensures var round := Round(Ok(Some(0)), Ok(data), Ok(Some(1)));
      ReadOutcome([round], location, GoogleSync.Revision, GoogleSync.ClassifyRead) == Some(Ok((data, None))) &&
      ReadOutcome([round], location, Generation, ClassifyRead) == None
  {
    var round := Round(Ok(Some(0)), Ok(data), Ok(Some(1)));
    assert Answered(round) && Settled(round, GoogleSync.Revision);
    assert !Settled(round, Generation);
    assert [round][1..] == [];
  }

  /** The headers of an upload: the generation to match, as text, exactly
      when an expected revision is given. */
  function Headers(expected: Option<int>): (h: Option<(string, string)>)
    ensures h.Some? <==> expected.Some?
    ensures h.Some? ==> h.value.0 == "x-goog-if-generation-match" && h.value.1 == IntToString(expected.value)
  {
    if expected.Some? then Some(("x-goog-if-generation-match", IntToString(expected.value))) else None
  }

  /** `write`: upload with the headers; a failure with HTTP status 412 is
      PreconditionFailedError, any other failure a StorageError; the
      returned metadata's generation is the revision. */
  function Write(location: string, data: string, expected: Option<int>,
                 upload: (string, string, string, Option<(string, string)>) -> Outcome<Option<int>, ApiError>)
    : (r: Outcome<Option<int>, Error>)
    ensures var (bucket, blob) := GoogleSync.ParseUri(location);
      var u := upload(bucket, blob, data, Headers(expected));
      (u.Ok? ==> r == Ok(u.value)) &&
      (u.Err? ==> r == Err(if u.error.status == Some(412) then PreconditionFailedError else StorageError))
  {
    var (bucket, blob) := GoogleSync.ParseUri(location);
    match upload(bucket, blob, data, Headers(expected))
    case Ok(generation) => Ok(generation)
    case Err(e) => if e.status == Some(412) then Err(PreconditionFailedError) else Err(StorageError)
  }

  /** `copy_within`: a server-side copy, then the new object's metadata
      for its generation; a failure of either call naming "Not Found" or
      "404" is NotFoundError for the source, any other a StorageError. */
  function CopyWithin(src: string, dst: string,
                      copy: (string, string, string, string) -> Outcome<(), ApiError>,
                      metadata: (string, string) -> Outcome<(Option<int>, Option<int>), ApiError>)
    : (r: Outcome<Option<int>, Error>)
    ensures var (sb, sn) := GoogleSync.ParseUri(src);
      var (db, dn) := GoogleSync.ParseUri(dst);
      var failure := if copy(sb, sn, db, dn).Err? then Some(copy(sb, sn, db, dn).error)
                     else if metadata(db, dn).Err? then Some(metadata(db, dn).error) else None;
      (failure.None? ==> r == Ok(metadata(db, dn).value.1)) &&
      (failure.Some? ==> r == Err(if HasInfix(failure.value.message, "Not Found") || HasInfix(failure.value.message, "404")
                                  then NotFoundError(src) else StorageError))
  {
    var (sb, sn) := GoogleSync.ParseUri(src);
    var (db, dn) := GoogleSync.ParseUri(dst);
    var copied := copy(sb, sn, db, dn);
    var failure := if copied.Err? then Some(copied.error)
                   else if metadata(db, dn).Err? then Some(metadata(db, dn).error) else None;
    match failure
    case Some(e) =>
      if HasInfix(e.message, "Not Found") || HasInfix(e.message, "404") then Err(NotFoundError(src)) else Err(StorageError)
    case None => Ok(metadata(db, dn).value.1)
  }
}
