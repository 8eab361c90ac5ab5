/** The asynchronous storage handle: work-path stripping, resolution,
    backend lookup through the shared registry, and `copy_to`. */
module AsyncHandle {
  import opened Wrappers
  import opened Errors
  import opened Strings
  import opened Handle
  import StorageRegistry

  /** The first step of `AsyncStorageHandle.__init__`: with a
      configuration, a location that starts with the work path loses that
      prefix and every '/' after it; otherwise it is kept. */
  function StripWorkPath(location: string, config: Option<Config>): (r: string)
    ensures config.None? || !StartsWith(location, config.value.workPath) ==> r == location
    ensures config.Some? && StartsWith(location, config.value.workPath) ==>
      var wp := config.value.workPath;
      |wp| + |r| <= |location| && location[|location| - |r|..] == r &&
      (forall i :: |wp| <= i < |location| - |r| ==> location[i] == '/') &&
      (r == [] || r[0] != '/')
  {
    if config.Some? && StartsWith(location, config.value.workPath) then
      LStrip(location[|config.value.workPath|..], '/')
    else location
  }

  /** `AsyncStorageHandle._resolve`: unlike the synchronous handle, a
      '/'-rooted location is accepted as it is, like one holding "://"; a
      relative location needs a configuration and goes under the release
      URI unless `forceLocal` or no release URI is set, else under the
      work path. */
  function Resolve(location: string, config: Option<Config>, forceLocal: bool): (r: Outcome<string, Error>)
    ensures r.Err? <==> !StartsWith(location, "/") && !HasInfix(location, "://") && config.None?
    ensures r.Err? ==> r.error == ValueError
    ensures r.Ok? && (StartsWith(location, "/") || HasInfix(location, "://")) ==> r.value == location
    ensures r.Ok? && !StartsWith(location, "/") && !HasInfix(location, "://") ==>
      config.Some? &&
      r.value == (if !forceLocal && config.value.releaseUri != "" then config.value.releaseUri else config.value.workPath) + "/" + location
  {
    if StartsWith(location, "/") then Ok(location)
    else if HasInfix(location, "://") then Ok(location)
    else if config.None? then Err(ValueError)
    else if !forceLocal && config.value.releaseUri != "" then Ok(config.value.releaseUri + "/" + location)
    else Ok(config.value.workPath + "/" + location)
  }

  /** The two resolvers differ only on '/'-rooted locations, which the
      synchronous handle refuses and the asynchronous one keeps. */
  lemma ResolversAgreeOffRoot(location: string, config: Option<Config>, forceLocal: bool)
    ensures !StartsWith(location, "/") ==> Resolve(location, config, forceLocal) == Handle.Resolve(location, config, forceLocal)
    ensures StartsWith(location, "/") ==>
      Resolve(location, config, forceLocal) == Ok(location) && Handle.Resolve(location, config, forceLocal) == Err(ValueError)
  {
  }

  /** Round trip: without a release URI, a location written as the work
      path, a '/' and a relative `l` is stripped back to `l` and resolves
      to the very location it was given. */
  lemma WorkPathRoundTrip(c: Config, l: string, forceLocal: bool)
    requires c.releaseUri == ""
    requires !StartsWith(l, "/") && !HasInfix(l, "://")
    ensures StripWorkPath(c.workPath + "/" + l, Some(c)) == l
    ensures Resolve(l, Some(c), forceLocal) == Ok(c.workPath + "/" + l)
  {
    var loc := c.workPath + "/" + l;
    assert StartsWith(loc, c.workPath) by {
      assert loc[..|c.workPath|] == c.workPath;
    }
    assert loc[|c.workPath|..] == "/" + l;
    StripOneSlash(l);
  }

  /** Stripping the '/'s from a '/' followed by a string that does not
      start with '/' leaves that string. */
  lemma StripOneSlash(l: string)
    requires !StartsWith(l, "/")
    ensures LStrip("/" + l, '/') == l
  {
    assert ("/" + l)[1..] == l;
    assert l == [] || l[0] != '/' by {
      assert l != [] ==> l[..1] == [l[0]];
    }
  }

  /** A constructed asynchronous handle; its backend is an instance the
      registry handed out. */
  datatype AsyncStorageHandle = AsyncStorageHandle(location: string, config: Option<Config>, forceLocal: bool,
                                                   resolved: string, storage: StorageRegistry.Backend)

  /** `AsyncStorageHandle.__init__`: strip the work path, resolve, then
      ask the shared registry for the backend. A resolution error leaves
      the registry's cache untouched. */
  method NewAsyncHandle(location: string, config: Option<Config>, forceLocal: bool,
                        registry: StorageRegistry.Registry)
    returns (r: Outcome<AsyncStorageHandle, Error>)
    requires registry.Valid()
    modifies registry`backends
    ensures registry.Valid()
    ensures var loc := StripWorkPath(location, config);
      (r.Err? <==> Resolve(loc, config, forceLocal).Err?) &&
      (r.Err? ==> r.error == ValueError && registry.backends == old(registry.backends)) &&
      (r.Ok? ==> r.value.location == loc && r.value.resolved == Resolve(loc, config, forceLocal).value &&
                 r.value.storage.kind == StorageRegistry.Route(registry.mappings, r.value.resolved))
  {
    var loc := StripWorkPath(location, config);
    var resolved := Resolve(loc, config, forceLocal);
    if resolved.Err? {
      return Err(resolved.error);
    }
    var storage := registry.GetStorage(resolved.value);
    r := Ok(AsyncStorageHandle(loc, config, forceLocal, resolved.value, storage));
  }

  /** `is_absolute`: the (stripped) location is its own resolution. */
  predicate IsAbsolute(h: AsyncStorageHandle) {
    h.location == h.resolved
  }

  /** A resolved location is absolute exactly when it was '/'-rooted or
      held "://". */
  lemma IsAbsoluteIffRootedOrUri(location: string, config: Option<Config>, forceLocal: bool)
    requires Resolve(location, config, forceLocal).Ok?
    ensures Resolve(location, config, forceLocal).value == location <==>
      StartsWith(location, "/") || HasInfix(location, "://")
  {
    var r := Resolve(location, config, forceLocal).value;
    if !StartsWith(location, "/") && !HasInfix(location, "://") {
      assert |r| > |location|;
    }
  }

  /** The calls an asynchronous handle makes on its backend, as functions
      of the backend class and the resolved locations. */
  datatype AsyncBackends = AsyncBackends(
    copyWithin: (StorageRegistry.Kind, string, string) -> Outcome<int, Error>,
    read: (StorageRegistry.Kind, string) -> Outcome<(string, int), Error>,
    write: (StorageRegistry.Kind, string, string) -> Outcome<int, Error>)

  /** `write` and `write_text`: the expected revision is accepted and
      dropped, so the backend writes unconditionally. */
  function Write(h: AsyncStorageHandle, data: string, expectedRevision: Option<int>, be: AsyncBackends): Outcome<int, Error> {
    be.write(h.storage.kind, h.resolved, data)
  }

  /** Whatever revision the caller expects, the write is the same
      unconditional backend write. */
  lemma WriteIgnoresExpectedRevision(h: AsyncStorageHandle, data: string, expected: Option<int>, be: AsyncBackends)
    ensures Write(h, data, expected, be) == Write(h, data, None, be) == be.write(h.storage.kind, h.resolved, data)
  {
  }

  /** `AsyncStorageHandle.copy_to` between a source and a destination
      given by their backend classes and resolved locations: for backends
      of the same class the native copy, unless it is not implemented;
      then read the source and write its content to the destination. The
      second component is the content written, if any. */
  function CopyBetween(srcKind: StorageRegistry.Kind, srcResolved: string,
                       destKind: StorageRegistry.Kind, destResolved: string, be: AsyncBackends)
    : (Outcome<int, Error>, Option<string>)
  {
    var native := if srcKind == destKind then be.copyWithin(srcKind, srcResolved, destResolved)
                  else Err(NotImplementedError);
    if !NotImplemented(native) then (native, None)
    else
      var read := be.read(srcKind, srcResolved);
      if read.Err? then (Err(read.error), None)
      else (be.write(destKind, destResolved, read.value.0), Some(read.value.0))
  }

  /** `copy_to` on two handles. */
  function CopyTo(src: AsyncStorageHandle, dest: AsyncStorageHandle, be: AsyncBackends): (Outcome<int, Error>, Option<string>) {
    CopyBetween(src.storage.kind, src.resolved, dest.storage.kind, dest.resolved, be)
  }

  /** Between backends of the same class, `copy_to` returns the native
      copy's outcome unless that is `NotImplementedError`, and writes
      nothing itself. */
  lemma CopySameClassIsNative(src: AsyncStorageHandle, dest: AsyncStorageHandle, be: AsyncBackends)
    requires src.storage.kind == dest.storage.kind
    requires !NotImplemented(be.copyWithin(src.storage.kind, src.resolved, dest.resolved))
    ensures CopyTo(src, dest, be) == (be.copyWithin(src.storage.kind, src.resolved, dest.resolved), None)
  {
  }

  /** Otherwise the destination receives exactly the bytes read from the
      source, and the revision is the destination write's; a failed read
      is passed on and nothing is written. */
  lemma CopyFallsBackToReadWrite(src: AsyncStorageHandle, dest: AsyncStorageHandle, be: AsyncBackends)
    requires src.storage.kind != dest.storage.kind ||
             NotImplemented(be.copyWithin(src.storage.kind, src.resolved, dest.resolved))
    ensures var read := be.read(src.storage.kind, src.resolved);
      (read.Err? ==> CopyTo(src, dest, be) == (Err(read.error), None)) &&
      (read.Ok? ==>
        CopyTo(src, dest, be) == (be.write(dest.storage.kind, dest.resolved, read.value.0), Some(read.value.0)))
  {
  }
}
