/** The synchronous storage handle: where a location resolves to, which
    backend serves it, and the order in which `copy_to` tries its copy
    strategies. The backends themselves are parameters. */
module Handle {
  import opened Wrappers
  import opened Errors
  import opened Strings
  import Dict

  /** The part of the configuration a handle reads. An empty `releaseUri`
      stands for an unset (falsy) release URI. */
  datatype Config = Config(releaseUri: string, workPath: string)

  /** The backend classes a synchronous handle can be served by. */
  datatype Backend = GoogleStorage | HttpStorage | FilesystemStorage | NoopStorage

  /** Metadata of a resource as every backend reports it; sizes and
      modification times may be unknown. */
  datatype Stat = Stat(isDir: bool, isReg: bool, size: Option<int>, revision: Option<int>, mtime: Option<int>)

  /** `storage_registry`: protocol (or no protocol) to backend class, in
      insertion order. */
  const Registry: Dict.Dict<Option<string>, Backend> :=
    [(Some("gs"), GoogleStorage), (Some("http"), HttpStorage), (Some("https"), HttpStorage), (None, FilesystemStorage)]

  /** The backend the registry is meant to give each protocol, written as
      a case analysis. */
  function BackendFor(proto: Option<string>): Backend {
    if proto == Some("gs") then GoogleStorage
    else if proto == Some("http") || proto == Some("https") then HttpStorage
    else if proto == None then FilesystemStorage
    else NoopStorage
  }

  /** `_resolve`: a location starting with '/' is refused, one holding
      "://" is used as it is, a relative one needs a configuration and is
      put under the release URI unless `forceLocal` or no release URI is
      set, else under the work path. */
  function Resolve(location: string, config: Option<Config>, forceLocal: bool): (r: Outcome<string, Error>)
    ensures r.Err? <==> StartsWith(location, "/") || (!HasInfix(location, "://") && config.None?)
    ensures r.Err? ==> r.error == ValueError
    ensures r.Ok? && HasInfix(location, "://") ==> r.value == location
    ensures r.Ok? && !HasInfix(location, "://") ==>
      config.Some? &&
      r.value == (if !forceLocal && config.value.releaseUri != "" then config.value.releaseUri else config.value.workPath) + "/" + location
  {
    if StartsWith(location, "/") then Err(ValueError)
    else if HasInfix(location, "://") then Ok(location)
    else if config.None? then Err(ValueError)
    else if !forceLocal && config.value.releaseUri != "" then Ok(config.value.releaseUri + "/" + location)
    else Ok(config.value.workPath + "/" + location)
  }

  /** The protocol of a resolved location: the text before the first
      "://", or none. */
  function Protocol(resolved: string): (r: Option<string>)
    ensures r.None? <==> !HasInfix(resolved, "://")
    ensures r.Some? ==> exists rest :: r.value + "://" + rest == resolved
  {
    var (before, after) := SplitFirst(resolved, "://");
    if after.Some? then
      assert before + "://" + after.value == resolved;
      Some(before)
    else None
  }

  /** `_get_storage`: the registry's class for the protocol, or the no-op
      backend for a protocol it does not list. */
  function GetStorage(resolved: string): Backend {
    Dict.Get(Registry, Protocol(resolved)).GetOr(NoopStorage)
  }

  /** The registry lookup agrees with the case analysis for every
      protocol: gs to Google, http and https to HTTP, no protocol to the
      filesystem, anything else to the no-op backend. */
  lemma RegistryLookup(p: Option<string>)
    ensures Dict.Get(Registry, p).GetOr(NoopStorage) == BackendFor(p)
  {
    assert Dict.UniqueKeys(Registry);
    if p == Some("gs") {
      Dict.GetAt(Registry, 0);
    } else if p == Some("http") {
      Dict.GetAt(Registry, 1);
    } else if p == Some("https") {
      Dict.GetAt(Registry, 2);
    } else if p == None {
      Dict.GetAt(Registry, 3);
    } else {
      assert !Dict.HasKey(Registry, p);
    }
  }

  /** `_get_storage` picks the backend of the location's protocol, the
      filesystem for a location without one. */
  lemma GetStorageMatchesBackendFor(resolved: string)
    ensures GetStorage(resolved) == BackendFor(Protocol(resolved))
    ensures !HasInfix(resolved, "://") ==> GetStorage(resolved) == FilesystemStorage
  {
    RegistryLookup(Protocol(resolved));
  }

  /** A constructed `StorageHandle`: what it was given, where that
      resolved to, and the backend serving it. */
  datatype StorageHandle = StorageHandle(location: string, config: Option<Config>, forceLocal: bool,
                                         resolved: string, storage: Backend)

  /** `StorageHandle.__init__`: resolve, then pick the backend. */
  function NewHandle(location: string, config: Option<Config>, forceLocal: bool): (r: Outcome<StorageHandle, Error>)
    ensures r.Err? <==> Resolve(location, config, forceLocal).Err?
    ensures r.Ok? ==> r.value.location == location && r.value.resolved == Resolve(location, config, forceLocal).value
    ensures r.Ok? ==> r.value.storage == BackendFor(Protocol(r.value.resolved))
  {
    match Resolve(location, config, forceLocal)
    case Err(e) => Err(e)
    case Ok(resolved) =>
      GetStorageMatchesBackendFor(resolved);
      Ok(StorageHandle(location, config, forceLocal, resolved, GetStorage(resolved)))
  }

  /** `is_absolute`: the location is its own resolution. */
  predicate IsAbsolute(h: StorageHandle) {
    h.location == h.resolved
  }

  /** A constructed handle is absolute exactly when its location holds
      "://": a relative location always gains a non-empty base and a '/'. */
  lemma IsAbsoluteIffUri(location: string, config: Option<Config>, forceLocal: bool)
    requires NewHandle(location, config, forceLocal).Ok?
    ensures IsAbsolute(NewHandle(location, config, forceLocal).value) <==> HasInfix(location, "://")
  {
    var h := NewHandle(location, config, forceLocal).value;
    if !HasInfix(location, "://") {
      assert |h.resolved| > |location|;
    }
  }

  /** The calls a handle makes on its backend, as functions of the
      backend class and the resolved locations. `downloadToFile` and
      `upload` take a local path; `openRead` yields the content a reader
      opened with mode 'rb' delivers, `openWrite` says whether opening
      for writing succeeds. */
  datatype Backends = Backends(
    stat: (Backend, string) -> Outcome<Stat, Error>,
    glob: (Backend, string, string) -> Outcome<seq<string>, Error>,
    copyWithin: (Backend, string, string) -> Outcome<int, Error>,
    downloadToFile: (Backend, string, string) -> Outcome<int, Error>,
    downloadToString: (Backend, string) -> Outcome<(string, int), Error>,
    upload: (Backend, string, string, Option<int>) -> Outcome<int, Error>,
    openRead: (Backend, string) -> Outcome<string, Error>,
    openWrite: (Backend, string) -> Outcome<(), Error>)

  /** Constructing a handle and asking its backend for the metadata
      (`StorageHandle(location, ...).stat()`). */
  function StatAt(location: string, config: Option<Config>, forceLocal: bool, be: Backends): (r: Outcome<Stat, Error>)
    ensures Resolve(location, config, forceLocal).Err? ==> r == Err(ValueError)
    ensures Resolve(location, config, forceLocal).Ok? ==>
      var resolved := Resolve(location, config, forceLocal).value;
      r == be.stat(BackendFor(Protocol(resolved)), resolved)
  {
    match NewHandle(location, config, forceLocal)
    case Err(e) => Err(e)
    case Ok(h) => be.stat(h.storage, h.resolved)
  }

  /** Whether the backend class defines `stat` and `glob` as coroutine
      functions (`async def`), so that the handle passes back a coroutine
      to be awaited: the HTTP and no-op backends do, Google Cloud Storage
      and the filesystem return their results directly. */
  predicate Awaitable(b: Backend) {
    b == HttpStorage || b == NoopStorage
  }

  /** The backends as the source defines the coroutine ones: HTTP storage
      does not glob, and the no-op backend neither stats nor globs; each
      raises NotImplementedError. */
  ghost predicate AsyncRefusals(be: Backends) {
    (forall loc, pat :: be.glob(HttpStorage, loc, pat) == Err(NotImplementedError)) &&
    (forall loc, pat :: be.glob(NoopStorage, loc, pat) == Err(NotImplementedError)) &&
    (forall loc :: be.stat(NoopStorage, loc) == Err(NotImplementedError))
  }

  /** `await StorageHandle(location, ...).stat()`: a failure to construct
      the handle or a raising synchronous `stat` comes first; the
      coroutine of an HTTP or no-op backend yields its outcome; the
      `StatResult` of Google Cloud Storage or the filesystem is not
      awaitable, which raises TypeError. */
  function AwaitedStat(location: string, config: Option<Config>, forceLocal: bool, be: Backends): (r: Outcome<Stat, Error>)
    ensures StatAt(location, config, forceLocal, be).Err? ==> r == StatAt(location, config, forceLocal, be)
    ensures NewHandle(location, config, forceLocal).Ok? && Awaitable(NewHandle(location, config, forceLocal).value.storage) ==>
      r == StatAt(location, config, forceLocal, be)
    ensures NewHandle(location, config, forceLocal).Ok? && !Awaitable(NewHandle(location, config, forceLocal).value.storage) &&
            StatAt(location, config, forceLocal, be).Ok? ==>
      r == Err(TypeError)
  {
    match NewHandle(location, config, forceLocal)
    case Err(e) => Err(e)
    case Ok(h) =>
      var s := be.stat(h.storage, h.resolved);
      if s.Err? || Awaitable(h.storage) then s else Err(TypeError)
  }

  /** `download_to_file`: a source that is not a regular file is refused
      before the backend is asked to download. */
  function DownloadToFile(h: StorageHandle, dst: string, be: Backends): (r: Outcome<int, Error>)
    ensures be.stat(h.storage, h.resolved).Err? ==> r == Err(be.stat(h.storage, h.resolved).error)
    ensures be.stat(h.storage, h.resolved).Ok? && !be.stat(h.storage, h.resolved).value.isReg ==> r == Err(ValueError)
    ensures be.stat(h.storage, h.resolved).Ok? && be.stat(h.storage, h.resolved).value.isReg ==>
      r == be.downloadToFile(h.storage, h.resolved, dst)
  {
    var s := be.stat(h.storage, h.resolved);
    if s.Err? then Err(s.error)
    else if !s.value.isReg then Err(ValueError)
    else be.downloadToFile(h.storage, h.resolved, dst)
  }

  /** `download_to_string`: the same regular-file check, then the backend. */
  function DownloadToString(h: StorageHandle, be: Backends): (r: Outcome<(string, int), Error>)
    ensures be.stat(h.storage, h.resolved).Err? ==> r == Err(be.stat(h.storage, h.resolved).error)
    ensures be.stat(h.storage, h.resolved).Ok? && !be.stat(h.storage, h.resolved).value.isReg ==> r == Err(ValueError)
    ensures be.stat(h.storage, h.resolved).Ok? && be.stat(h.storage, h.resolved).value.isReg ==>
      r == be.downloadToString(h.storage, h.resolved)
  {
    var s := be.stat(h.storage, h.resolved);
    if s.Err? then Err(s.error)
    else if !s.value.isReg then Err(ValueError)
    else be.downloadToString(h.storage, h.resolved)
  }

  /** `upload`: a local source that is not a file is refused; otherwise
      the backend uploads it with the expected revision. */
  function Upload(h: StorageHandle, src: string, srcIsFile: bool, revision: Option<int>, be: Backends): (r: Outcome<int, Error>)
    ensures !srcIsFile ==> r == Err(ValueError)
    ensures srcIsFile ==> r == be.upload(h.storage, src, h.resolved, revision)
  {
    if !srcIsFile then Err(ValueError) else be.upload(h.storage, src, h.resolved, revision)
  }

  /** The strategy by which `copy_to` produced its result. */
  datatype Strategy = Refused | Native | DirectDownload | ViaTemporary | Chunked

  /** The outcome of the download/upload fallback: straight into the
      destination file when the destination is the filesystem, otherwise
      through a temporary file `tmp` and an upload. */
  function Fallback(src: StorageHandle, dest: StorageHandle, tmp: string, be: Backends): Outcome<int, Error> {
    if dest.storage == FilesystemStorage then be.downloadToFile(src.storage, src.resolved, dest.resolved)
    else
      var d := be.downloadToFile(src.storage, src.resolved, tmp);
      if d.Err? then d else be.upload(dest.storage, tmp, dest.resolved, None)
  }

  /** Whether a step raised `NotImplementedError`. */
  predicate NotImplemented<T>(r: Outcome<T, Error>) {
    r.Err? && r.error == NotImplementedError
  }

  /** The strategies of `copy_to` in order: the source must be a regular
      file (a missing one is reported as not found); backends of the same
      class try their native copy; when that is absent or not
      implemented, download/upload; when that is not implemented, a
      chunked copy through `open`, which reports revision 0. */
  function CopyResult(src: StorageHandle, dest: StorageHandle, tmp: string, be: Backends): (Strategy, Outcome<int, Error>) {
    var s := be.stat(src.storage, src.resolved);
    if s.Err? then (Refused, Err(if s.error == FileNotFoundError then NotFoundError(src.resolved) else s.error))
    else if !s.value.isReg then (Refused, Err(ValueError))
    else
      var native := if src.storage == dest.storage then be.copyWithin(src.storage, src.resolved, dest.resolved)
                    else Err(NotImplementedError);
      if !NotImplemented(native) then (Native, native)
      else
        var fb := Fallback(src, dest, tmp, be);
        if !NotImplemented(fb) then (if dest.storage == FilesystemStorage then DirectDownload else ViaTemporary, fb)
        else
          var r := be.openRead(src.storage, src.resolved);
          var w := be.openWrite(dest.storage, dest.resolved);
          (Chunked, if r.Err? then Err(r.error) else if w.Err? then Err(w.error) else Ok(0))
  }

  /** The size of the chunks the open/read/write fallback copies. */
  const ChunkSize: nat := 8192

  /** The concatenation of a sequence of chunks. */
  function Concat(chunks: seq<string>): string {
    if chunks == [] then "" else Concat(chunks[..|chunks| - 1]) + chunks[|chunks| - 1]
  }

  /** Chunks as the copy loop reads them: each non-empty and at most
      `ChunkSize` long, every one but the last exactly `ChunkSize` long. */
  predicate WellChunked(chunks: seq<string>) {
    (forall i :: 0 <= i < |chunks| ==> 0 < |chunks[i]| <= ChunkSize) &&
    (forall i :: 0 <= i < |chunks| - 1 ==> |chunks[i]| == ChunkSize)
  }

  /** The chunked copy: read up to `ChunkSize` characters at a time until
      a read comes back empty, writing each chunk to the destination. */
  method CopyChunks(data: string) returns (chunks: seq<string>)
    ensures Concat(chunks) == data
    ensures WellChunked(chunks)
  {
    chunks := [];
    var pos := 0;
    var chunk := data[pos..if |data| - pos < ChunkSize then |data| else pos + ChunkSize];
    while chunk != []
      invariant 0 <= pos <= |data| && Concat(chunks) == data[..pos]
      invariant WellChunked(chunks)
      invariant chunks != [] ==> |chunks[|chunks| - 1]| < ChunkSize ==> pos == |data|
      invariant chunk == data[pos..if |data| - pos < ChunkSize then |data| else pos + ChunkSize]
      decreases |data| - pos
    {
      chunks := chunks + [chunk];
      assert Concat(chunks) == data[..pos] + chunk;
      pos := pos + |chunk|;
      assert data[..pos] == data[..pos - |chunk|] + chunk;
      chunk := data[pos..if |data| - pos < ChunkSize then |data| else pos + ChunkSize];
    }
  }

  /** `StorageHandle.copy_to`: the strategies of `CopyResult`, in the same
      order, returning the revision and, when the chunked copy ran, the
      chunks written to the destination, which rebuild the source. */
  method CopyTo(src: StorageHandle, dest: StorageHandle, tmp: string, be: Backends)
    returns (r: Outcome<int, Error>, written: seq<string>)
    ensures (CopyResult(src, dest, tmp, be).0, r) == CopyResult(src, dest, tmp, be)
    ensures CopyResult(src, dest, tmp, be).0 == Chunked && r.Ok? ==>
      be.openRead(src.storage, src.resolved).Ok? && Concat(written) == be.openRead(src.storage, src.resolved).value &&
      WellChunked(written)
    ensures CopyResult(src, dest, tmp, be).0 != Chunked || r.Err? ==> written == []
  {
    written := [];
    var s := be.stat(src.storage, src.resolved);
    if s.Err? {
      if s.error == FileNotFoundError {
        return Err(NotFoundError(src.resolved)), written;
      }
      return Err(s.error), written;
    }
    if !s.value.isReg {
      return Err(ValueError), written;
    }
    if src.storage == dest.storage {
      var native := be.copyWithin(src.storage, src.resolved, dest.resolved);
      if !NotImplemented(native) {
        return native, written;
      }
    }
    var fb;
    if dest.storage == FilesystemStorage {
      fb := be.downloadToFile(src.storage, src.resolved, dest.resolved);
    } else {
      fb := be.downloadToFile(src.storage, src.resolved, tmp);
      if !fb.Err? {
        fb := be.upload(dest.storage, tmp, dest.resolved, None);
      }
    }
    if !NotImplemented(fb) {
      return fb, written;
    }
    var reader := be.openRead(src.storage, src.resolved);
    if reader.Err? {
      return Err(reader.error), written;
    }
    var writer := be.openWrite(dest.storage, dest.resolved);
    if writer.Err? {
      return Err(writer.error), written;
    }
    written := CopyChunks(reader.value);
    r := Ok(0);
  }

  /** A source that is missing or not a regular file is refused before
      any copy strategy is tried. */
  lemma CopyRefusesNonRegular(src: StorageHandle, dest: StorageHandle, tmp: string, be: Backends)
    requires be.stat(src.storage, src.resolved).Err? || !be.stat(src.storage, src.resolved).value.isReg
    ensures CopyResult(src, dest, tmp, be).0 == Refused
    ensures be.stat(src.storage, src.resolved).Ok? ==> CopyResult(src, dest, tmp, be).1 == Err(ValueError)
    ensures be.stat(src.storage, src.resolved) == Err(FileNotFoundError) ==>
      CopyResult(src, dest, tmp, be).1 == Err(NotFoundError(src.resolved))
  {
  }

  /** Between backends of the same class, `copy_to` returns what the
      native copy returns, error or revision, unless that is
      `NotImplementedError`. */
  lemma CopySameBackendIsNative(src: StorageHandle, dest: StorageHandle, tmp: string, be: Backends)
    requires be.stat(src.storage, src.resolved).Ok? && be.stat(src.storage, src.resolved).value.isReg
    requires src.storage == dest.storage && !NotImplemented(be.copyWithin(src.storage, src.resolved, dest.resolved))
    ensures CopyResult(src, dest, tmp, be) == (Native, be.copyWithin(src.storage, src.resolved, dest.resolved))
  {
  }

  /** Between backends of different classes the native copy is never
      consulted: any other `copyWithin` gives the same outcome. */
  lemma CopyAcrossBackendsIgnoresNative(src: StorageHandle, dest: StorageHandle, tmp: string, be: Backends,
                                        other: (Backend, string, string) -> Outcome<int, Error>)
    requires src.storage != dest.storage
    ensures CopyResult(src, dest, tmp, be) == CopyResult(src, dest, tmp, be.(copyWithin := other))
    ensures CopyResult(src, dest, tmp, be).0 != Native
  {
  }

  /** Into the filesystem, the fallback downloads straight to the
      destination path and no upload or temporary file is involved. */
  lemma CopyToFilesystemDownloadsDirectly(src: StorageHandle, dest: StorageHandle, tmp: string, be: Backends,
                                          otherUpload: (Backend, string, string, Option<int>) -> Outcome<int, Error>)
    requires dest.storage == FilesystemStorage
    ensures CopyResult(src, dest, tmp, be) == CopyResult(src, dest, tmp, be.(upload := otherUpload))
  {
  }
}
