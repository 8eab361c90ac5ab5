/** The storage registry: an ordered table from location prefix to
    backend class, and a cache holding one backend instance per prefix. */
module StorageRegistry {
  import opened Wrappers
  import opened Strings
  import Dict

  /** The backend classes the two shipped registries name, and the no-op
      backend handed out for unknown locations. */
  datatype Kind = AsyncGoogle | AsyncHttp | AsyncFilesystem | Google | Http | Filesystem | Noop

  /** A backend instance; two lookups give the same backend only when
      they give the same object. */
  class Backend {
    const kind: Kind

    constructor (kind: Kind)
      ensures this.kind == kind
    {
      this.kind := kind;
    }
  }

  /** The index of the first mapping whose prefix starts `location`. */
  function FirstMatch(mappings: Dict.Dict<string, Kind>, location: string): (r: Option<nat>)
    ensures r.Some? ==> r.value < |mappings| && StartsWith(location, mappings[r.value].0)
    ensures r.Some? ==> forall j :: 0 <= j < r.value ==> !StartsWith(location, mappings[j].0)
    ensures r.None? ==> forall j :: 0 <= j < |mappings| ==> !StartsWith(location, mappings[j].0)
  {
    if mappings == [] then None
    else if StartsWith(location, mappings[0].0) then Some(0)
    else match FirstMatch(mappings[1..], location)
      case Some(i) => Some(i + 1)
      case None => None
  }

  /** The backend class a location is served by. */
  function Route(mappings: Dict.Dict<string, Kind>, location: string): Kind {
    match FirstMatch(mappings, location)
    case Some(i) => mappings[i].1
    case None => Noop
  }

  /** `async_storage_registry`. */
  const AsyncMappings: Dict.Dict<string, Kind> :=
    [("gs://", AsyncGoogle), ("http://", AsyncHttp), ("https://", AsyncHttp), ("/", AsyncFilesystem)]

  /** `storage_registry`. */
  const SyncMappings: Dict.Dict<string, Kind> :=
    [("gs://", Google), ("http://", Http), ("https://", Http), ("/", Filesystem)]

  /** Whether a location starts with one of the shipped prefixes. */
  predicate KnownPrefix(location: string) {
    StartsWith(location, "/") || StartsWith(location, "gs://") || StartsWith(location, "http://") ||
    StartsWith(location, "https://")
  }

  /** In the asynchronous registry a '/'-rooted location goes to the
      filesystem, a gs:// one to Google, an http:// or https:// one to
      HTTP, and anything else, such as a relative path, to the no-op
      backend. */
  lemma AsyncRouting(location: string)
    ensures StartsWith(location, "/") ==> Route(AsyncMappings, location) == AsyncFilesystem
    ensures StartsWith(location, "gs://") ==> Route(AsyncMappings, location) == AsyncGoogle
    ensures StartsWith(location, "http://") || StartsWith(location, "https://") ==>
      Route(AsyncMappings, location) == AsyncHttp
    ensures !KnownPrefix(location) ==> Route(AsyncMappings, location) == Noop
  {
    var m := AsyncMappings;
    assert m[0].0 == "gs://" && m[1].0 == "http://" && m[2].0 == "https://" && m[3].0 == "/";
    if StartsWith(location, "/") {
      assert location[0] == '/';
      assert !StartsWith(location, m[0].0) && !StartsWith(location, m[1].0) && !StartsWith(location, m[2].0);
    } else if StartsWith(location, "gs://") {
      assert StartsWith(location, m[0].0);
    } else if StartsWith(location, "http://") {
      assert location[0] == 'h';
      assert !StartsWith(location, m[0].0);
    } else if StartsWith(location, "https://") {
      assert location[4] == 's';
      assert !StartsWith(location, m[0].0) && !StartsWith(location, m[1].0);
    }
  }

  /** The synchronous registry routes the same way. */
  lemma SyncRouting(location: string)
    ensures StartsWith(location, "/") ==> Route(SyncMappings, location) == Filesystem
    ensures StartsWith(location, "gs://") ==> Route(SyncMappings, location) == Google
    ensures StartsWith(location, "http://") || StartsWith(location, "https://") ==>
      Route(SyncMappings, location) == Http
    ensures !KnownPrefix(location) ==> Route(SyncMappings, location) == Noop
  {
    var m := SyncMappings;
    assert m[0].0 == "gs://" && m[1].0 == "http://" && m[2].0 == "https://" && m[3].0 == "/";
    if StartsWith(location, "/") {
      assert location[0] == '/';
      assert !StartsWith(location, m[0].0) && !StartsWith(location, m[1].0) && !StartsWith(location, m[2].0);
    } else if StartsWith(location, "gs://") {
      assert StartsWith(location, m[0].0);
    } else if StartsWith(location, "http://") {
      assert location[0] == 'h';
      assert !StartsWith(location, m[0].0);
    } else if StartsWith(location, "https://") {
      assert location[4] == 's';
      assert !StartsWith(location, m[0].0) && !StartsWith(location, m[1].0);
    }
  }

  /** `StorageRegistry`: the prefix table and the backend cache. */
  class Registry {
    const mappings: Dict.Dict<string, Kind>
    var backends: map<string, Backend>

    /** The cache only holds prefixes of the table, each with an instance
        of the table's class for it. */
    ghost predicate Valid()
      reads this
    {
      Dict.UniqueKeys(mappings) &&
      forall p :: p in backends ==> Dict.Get(mappings, p) == Some(backends[p].kind)
    }

    constructor (mappings: Dict.Dict<string, Kind>)
      requires Dict.UniqueKeys(mappings)
      ensures this.mappings == mappings && backends == map[]
      ensures Valid()
    {
      this.mappings := mappings;
      backends := map[];
    }

    /** `get_storage`: the cached instance for the first prefix of the
        table that starts the location, created and cached on first use;
        for a location no prefix starts, a fresh no-op backend that is not
        cached. */
    method GetStorage(location: string) returns (b: Backend)
      requires Valid()
      modifies this`backends
      ensures Valid()
      ensures b.kind == Route(mappings, location)
      ensures FirstMatch(mappings, location).None? ==> fresh(b) && backends == old(backends)
      ensures FirstMatch(mappings, location).Some? ==>
        var p := mappings[FirstMatch(mappings, location).value].0;
        backends == old(backends)[p := b] &&
        (p in old(backends) ==> b == old(backends)[p]) &&
        (p !in old(backends) ==> fresh(b))
    {
      var i := 0;
      while i < |mappings|
        invariant 0 <= i <= |mappings|
        invariant forall j :: 0 <= j < i ==> !StartsWith(location, mappings[j].0)
        invariant backends == old(backends)
      {
        var (proto, kind) := mappings[i];
        if StartsWith(location, proto) {
          assert FirstMatch(mappings, location) == Some(i) by {
            var f := FirstMatch(mappings, location);
            assert f.Some? && f.value <= i;
          }
          if proto !in backends {
            var created := new Backend(kind);
            Dict.GetAt(mappings, i);
            backends := backends[proto := created];
          }
          b := backends[proto];
          return;
        }
        i := i + 1;
      }
      b := new Backend(Noop);
    }
  }
}
