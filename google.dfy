/** The Google Cloud Storage backend of the storage handles: URI parsing
    with bucket-name validation, the blob-name check, glob composition and
    `upload`. */
module GoogleStorage {
  import opened Wrappers
  import opened Errors
  import opened Strings
  import opened GoogleApi
  import GoogleSync
  import GoogleAsync

  /** The first and last character of a bucket name: `[a-z0-9]`. */
  predicate EdgeChar(c: char) {
    'a' <= c <= 'z' || '0' <= c <= '9'
  }

  /** The inner characters of a bucket name: `[a-z0-9-_.]`. */
  predicate InnerChar(c: char) {
    EdgeChar(c) || c == '-' || c == '_' || c == '.'
  }

  /** The whole name matches `[a-z0-9][a-z0-9-_.]{2,221}[a-z0-9]`: 4 to
      223 characters. */
  predicate BucketCoreMatch(b: string) {
    4 <= |b| <= 223 && EdgeChar(b[0]) && EdgeChar(b[|b| - 1]) &&
    forall i :: 1 <= i < |b| - 1 ==> InnerChar(b[i])
  }

  /** What `re.match` with the pattern anchored by `^...$` accepts: `$`
      also matches just before a final "\n", so the name may carry one
      trailing newline. */
  predicate BucketMatchesAsWritten(b: string) {
    BucketCoreMatch(b) || (|b| > 0 && b[|b| - 1] == '\n' && BucketCoreMatch(b[..|b| - 1]))
  }

  /** `_parse_uri` as written: the URI split as the other backends do,
      with the bucket checked by the pattern as `re.match` applies it. */
  function ParseUriAsWritten(uri: string): Outcome<(string, Option<string>), Error> {
    var parts := SplitFirstChar(ReplaceAll(uri, "gs://", ""), '/');
    if !BucketMatchesAsWritten(parts.0) then Err(StorageError) else Ok(parts)
  }

  /** `_parse_uri` with the bucket check evidently intended: the bucket and
      path are those of the other backends' split (no path when there is
      no '/'), and a bucket that is not a valid name is a StorageError. */
  function ParseUri(uri: string): (r: Outcome<(string, Option<string>), Error>)
    ensures var (bucket, blob) := GoogleSync.ParseUri(uri);
      (r.Ok? <==> BucketCoreMatch(bucket)) &&
      (r.Err? ==> r.error == StorageError) &&
      (r.Ok? ==> r.value.0 == bucket && r.value.1.GetOr("") == blob &&
                 (r.value.1.None? <==> '/' !in ReplaceAll(uri, "gs://", "")))
  {
    var parts := SplitFirstChar(ReplaceAll(uri, "gs://", ""), '/');
    if !BucketCoreMatch(parts.0) then Err(StorageError) else Ok(parts)
  }

  /** Round trip: "gs://", a valid bucket name, '/' and a path parse back
      to that bucket and path; the bare bucket URI has no path. */
  lemma ParseUriJoined(bucket: string, path: string)
    requires BucketCoreMatch(bucket) && !HasInfix(bucket + "/" + path, "gs://")
    ensures ParseUri("gs://" + bucket + "/" + path) == Ok((bucket, Some(path)))
    ensures ParseUri("gs://" + bucket) == Ok((bucket, None))
  {
    NoSlashInValidBucket(bucket);
    var tail := bucket + "/" + path;
    assert "gs://" + bucket + "/" + path == "gs://" + tail;
    GoogleSync.DropLeadingScheme(tail);
    GoogleSync.SplitFirstSlashJoined(bucket, path);
    NoColonNoScheme(bucket);
    GoogleSync.DropLeadingScheme(bucket);
  }

  /** A valid bucket name holds neither '/' nor ':'. */
  lemma NoSlashInValidBucket(b: string)
    requires BucketCoreMatch(b)
    ensures '/' !in b && ':' !in b
  {
    assert forall i :: 0 <= i < |b| ==> InnerChar(b[i]);
  }

  /** A text without ':' holds no "gs://". */
  lemma {:induction false} NoColonNoScheme(s: string)
    requires ':' !in s
    ensures !HasInfix(s, "gs://")
    decreases |s|
  {
    if |s| > 0 {
      assert ':' !in s[1..];
      NoColonNoScheme(s[1..]);
      assert !StartsWith(s, "gs://") by {
        assert |s| >= 5 ==> s[..5][2] == s[2];
      }
    }
  }

  /** As written, a valid bucket name followed by a newline passes the
      check (so "gs://abcd\n" names the bucket "abcd\n"), which the
      intended check refuses. */
  lemma NewlineBucketAccepted(b: string)
    requires BucketCoreMatch(b)
    ensures ParseUriAsWritten("gs://" + b + "\n") == Ok((b + "\n", None))
    ensures ParseUri("gs://" + b + "\n") == Err(StorageError)
  {
    var t := b + "\n";
    NoSlashInValidBucket(b);
    assert ':' !in t && '/' !in t;
    NoColonNoScheme(t);
    assert "gs://" + b + "\n" == "gs://" + t;
    GoogleSync.DropLeadingScheme(t);
    assert t[..|t| - 1] == b;
  }

  /** The smallest such input. */
  lemma NewlineBucketExample()
    ensures ParseUriAsWritten("gs://abcd\n") == Ok(("abcd\n", None))
    ensures ParseUri("gs://abcd\n") == Err(StorageError)
  {
    assert BucketCoreMatch("abcd");
    NewlineBucketAccepted("abcd");
    assert "abcd" + "\n" == "abcd\n";
    assert "gs://" + "abcd" + "\n" == "gs://abcd\n";
  }

  /** `_prepare_blob`'s check: a URI without a path has no blob to
      address. */
  function PrepareBlob(path: Option<string>): (r: Outcome<string, Error>)
    ensures r.Err? <==> path.None?
    ensures r.Err? ==> r.error == StorageError
    ensures r.Ok? ==> r.value == path.value
  {
    if path.None? then Err(StorageError) else Ok(path.value)
  }

  /** The `match_glob` of `glob`: the pattern under the path's directory
      prefix, or the pattern alone when there is no path. */
  function GlobPattern(path: Option<string>, pattern: string): (r: string)
    ensures r == GoogleSync.SearchPrefix(path.GetOr("")) + pattern
  {
    if path.Some? && path.value != "" then
      if EndsWith(path.value, "/") then path.value + pattern else path.value + "/" + pattern
    else pattern
  }

  /** This backend composes its glob as the asynchronous backend evidently
      intends to, a bucket root included. */
  lemma GlobPatternMatchesAsyncRequest(path: Option<string>, pattern: string)
    ensures GlobPattern(path, pattern) == GoogleAsync.GlobRequest(path.GetOr(""), pattern)
  {
  }

  /** `glob`: parse the URI, list the objects matching the composed
      pattern and report their URIs in listing order. A listing failure is
      not caught and passes through. */
  function Glob(location: string, pattern: string, list: (string, string) -> Outcome<seq<string>, ApiError>)
    : (r: Outcome<seq<string>, Error>)
    ensures ParseUri(location).Err? ==> r == Err(StorageError)
    ensures ParseUri(location).Ok? ==>
      var (bucket, path) := ParseUri(location).value;
      var listed := list(bucket, GlobPattern(path, pattern));
      (listed.Err? ==> r == Err(OtherError(listed.error.message))) &&
      (listed.Ok? ==> r.Ok? && |r.value| == |listed.value| &&
                      forall i :: 0 <= i < |r.value| ==> r.value[i] == GoogleSync.BlobUri(bucket, listed.value[i]))
  {
    match ParseUri(location)
    case Err(e) => Err(e)
    case Ok((bucket, path)) =>
      match list(bucket, GlobPattern(path, pattern))
      case Err(e) => Err(OtherError(e.message))
      case Ok(names) => Ok(seq(|names|, i requires 0 <= i < |names| => GoogleSync.BlobUri(bucket, names[i])))
  }

  /** `upload`: parse the destination, check it names a blob, upload with
      the revision as the generation to match only when one is given, and
      return the blob's generation, 0 when it has none. A generation
      mismatch is PreconditionFailedError and any other upload failure a
      StorageError. */
  function Upload(src: string, dst: string, revision: Option<int>,
                  upload: (string, string, string, Option<int>) -> Outcome<(), ApiError>,
                  generation: (string, string) -> Option<int>)
    : (r: Outcome<int, Error>)
    ensures ParseUri(dst).Err? || ParseUri(dst).value.1.None? ==> r == Err(StorageError)
    ensures ParseUri(dst).Ok? && ParseUri(dst).value.1.Some? ==>
      var (bucket, path) := (ParseUri(dst).value.0, ParseUri(dst).value.1.value);
      var u := upload(bucket, path, src, revision);
      (u.Err? ==> r == Err(if u.error.kind == PreconditionKind then PreconditionFailedError else StorageError)) &&
      (u.Ok? ==> r == Ok(generation(bucket, path).GetOr(0)))
  {
    match ParseUri(dst)
    case Err(e) => Err(e)
    case Ok((bucket, path)) =>
      match PrepareBlob(path)
      case Err(e) => Err(e)
      case Ok(blob) =>
        match upload(bucket, blob, src, revision)
        case Err(e) => if e.kind == PreconditionKind then Err(PreconditionFailedError) else Err(StorageError)
        case Ok(_) => Ok(generation(bucket, blob).GetOr(0))
  }

  /** An upload without a revision is unconditional: the client is asked
      for no generation match. */
  lemma UploadWithoutRevisionUnconditional(src: string, dst: string,
                                           upload: (string, string, string, Option<int>) -> Outcome<(), ApiError>,
                                           upload': (string, string, string, Option<int>) -> Outcome<(), ApiError>,
                                           generation: (string, string) -> Option<int>)
    requires forall b, p, s :: upload(b, p, s, None) == upload'(b, p, s, None)
    ensures Upload(src, dst, None, upload, generation) == Upload(src, dst, None, upload', generation)
  {
  }
}
