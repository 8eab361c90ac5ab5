/** The local filesystem backend of the synchronous storage layer, seen as a
    versioned map from path to node: a regular file carries its content and
    its modification time, which is also its revision. */
module Filesystem {
  import opened Wrappers
  import opened Errors

  datatype Node = File(data: string, mtime: int) | Dir(mtime: int)

  datatype StatResult = StatResult(isDir: bool, isReg: bool, size: nat, revision: int, mtime: int)

  /** What another process does to a file while this one is reading it. */
  datatype Interference = Quiet | Rewritten(data: string, mtime: int) | Removed

  /** The outcome of reading `location` from `files` when nobody else
      touches the file meanwhile. */
  function QuietRead(files: map<string, Node>, location: string, text: bool, decodable: string -> bool)
    : (r: Outcome<(string, int), Error>)
  {
    if location !in files then Err(NotFoundError(location))
    else if files[location].Dir? then Err(IsADirectoryError)
    else if text && !decodable(files[location].data) then Err(UnicodeDecodeError)
    else Ok((files[location].data, files[location].mtime))
  }

  /** `read_text` turns a decoding failure into a StorageError. */
  function TextError(r: Outcome<(string, int), Error>): (t: Outcome<(string, int), Error>)
    ensures r.Ok? ==> t == r
    ensures r.Err? ==> t.Err? && (t.error == StorageError <==> r.error == UnicodeDecodeError || r.error == StorageError)
  {
    if r.Err? && r.error == UnicodeDecodeError then Err(StorageError) else r
  }

  class FilesystemStorage {
    var files: map<string, Node>

    constructor (initial: map<string, Node>)
      ensures files == initial
    {
      files := initial;
    }

    /** `stat`: a missing path is a NotFoundError naming it; the revision
        of a present path is its modification time. */
    function Stat(location: string): (r: Outcome<StatResult, Error>)
      reads this
      ensures r.Err? <==> location !in files
      ensures r.Err? ==> r.error == NotFoundError(location)
      ensures r.Ok? ==> r.value.revision == r.value.mtime == files[location].mtime
      ensures r.Ok? ==> r.value.isReg == files[location].File? && r.value.isDir == !r.value.isReg
    {
      if location !in files then Err(NotFoundError(location))
      else
        var n := files[location];
        Ok(StatResult(n.Dir?, n.File?, if n.File? then |n.data| else 0, n.mtime, n.mtime))
    }

    /** `_read`: stat, read, stat again, and start over unless the two
        modification times agree. `others[k]` is what another process does
        to the file during attempt `k`; after the trace nobody interferes. */
    method Read(location: string, text: bool, decodable: string -> bool, others: seq<Interference>)
      returns (r: Outcome<(string, int), Error>, attempts: nat)
      modifies this
      ensures 1 <= attempts <= |others| + 1
      ensures forall k :: 0 <= k < attempts - 1 ==> others[k].Rewritten?
      ensures r.Ok? ==> location in files && files[location].mtime == r.value.1
      ensures r.Ok? && text ==> decodable(r.value.0)
      ensures r.Ok? && (attempts > |others| || others[attempts - 1].Quiet?) ==>
        files[location] == File(r.value.0, r.value.1)
      ensures forall l :: l != location ==> (l in files <==> l in old(files))
      ensures forall l :: l != location && l in files ==> files[l] == old(files)[l]
      ensures (forall k :: 0 <= k < |others| ==> others[k].Quiet?) ==>
        files == old(files) && r == QuietRead(files, location, text, decodable)
    {
      attempts := 0;
      while true
        invariant attempts <= |others|
        invariant forall k :: 0 <= k < attempts ==> others[k].Rewritten?
        invariant forall l :: l != location ==> (l in files <==> l in old(files))
        invariant forall l :: l != location && l in files ==> files[l] == old(files)[l]
        invariant (forall k :: 0 <= k < |others| ==> others[k].Quiet?) ==> attempts == 0 && files == old(files)
        decreases |others| - attempts
      {
        if location !in files {
          r, attempts := Err(NotFoundError(location)), attempts + 1;
          return;
        }
        var before := files[location].mtime;
        if files[location].Dir? {
          r, attempts := Err(IsADirectoryError), attempts + 1;
          return;
        }
        var data := files[location].data;
        if text && !decodable(data) {
          r, attempts := Err(UnicodeDecodeError), attempts + 1;
          return;
        }
        var act := if attempts < |others| then others[attempts] else Quiet;
        match act {
          case Quiet =>
          case Rewritten(d, t) => files := files[location := File(d, t)];
          case Removed => files := files - {location};
        }
        attempts := attempts + 1;
        if location !in files {
          r := Err(NotFoundError(location));
          return;
        }
        if files[location].mtime == before {
          r := Ok((data, files[location].mtime));
          return;
        }
      }
    }

    /** `read_text`: `_read` in text mode, with a decoding failure reported
        as a StorageError. */
    method ReadText(location: string, decodable: string -> bool, others: seq<Interference>)
      returns (r: Outcome<(string, int), Error>)
      modifies this
      ensures r.Ok? ==> location in files && files[location].mtime == r.value.1 && decodable(r.value.0)
      ensures r.Err? ==> r.error != UnicodeDecodeError
      ensures (forall k :: 0 <= k < |others| ==> others[k].Quiet?) ==>
        files == old(files) && r == TextError(QuietRead(files, location, true, decodable))
    {
      var inner, _ := Read(location, true, decodable, others);
      r := TextError(inner);
    }

    /** `write` (and `write_text`): with an expected revision, the write
        happens only if the file exists and its revision matches; without
        one, it overwrites unconditionally. The new revision is the
        modification time `now` the write leaves. */
    method Write(location: string, data: string, expected: Option<int>, now: int)
      returns (r: Outcome<int, Error>)
      modifies this
      ensures expected.Some? && location !in old(files) ==>
        r == Err(NotFoundError(location)) && files == old(files)
      ensures expected.Some? && location in old(files) && old(files)[location].mtime != expected.value ==>
        r == Err(PreconditionFailedError) && files == old(files)
      ensures (expected.None? || (location in old(files) && old(files)[location].mtime == expected.value)) ==>
        if location in old(files) && old(files)[location].Dir? then
          r == Err(IsADirectoryError) && files == old(files)
        else
          r == Ok(now) && files == old(files)[location := File(data, now)]
    {
      if expected.Some? {
        if location !in files {
          return Err(NotFoundError(location));
        }
        if files[location].mtime != expected.value {
          return Err(PreconditionFailedError);
        }
      }
      if location in files && files[location].Dir? {
        return Err(IsADirectoryError);
      }
      files := files[location := File(data, now)];
      r := Ok(now);
    }

    /** `copy_within`: the source must exist and be a regular file, checked
        before the destination is touched; the copy keeps the source's
        modification time, which is returned. */
    method CopyWithin(src: string, dst: string) returns (r: Outcome<int, Error>)
      modifies this
      ensures src !in old(files) ==> r == Err(NotFoundError(src)) && files == old(files)
      ensures src in old(files) && old(files)[src].Dir? ==> r == Err(ValueError) && files == old(files)
      ensures src in old(files) && old(files)[src].File? ==>
        r == Ok(old(files)[src].mtime) && files == old(files)[dst := old(files)[src]]
    {
      if src !in files {
        return Err(NotFoundError(src));
      }
      if !files[src].File? {
        return Err(ValueError);
      }
      files := files[dst := files[src]];
      r := Ok(files[dst].mtime);
    }
  }
}
