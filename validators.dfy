/** The resource validators: the `v` wrapper that turns a validator's
    verdict into an error, and the file validators `exists` and `size`. */
module Validators {
  import opened Wrappers
  import opened Errors
  import opened Strings
  import opened Handle

  /** What a validator returned: exactly `False`, exactly `True`, `None`,
      or some other value, truthy or falsy. */
  datatype Returned = ReturnedFalse | ReturnedTrue | ReturnedNone | ReturnedOther(truthy: bool)

  /** `v`: the validator is called once; its exception passes through,
      and only a result that is the `False` object fails, with an error
      naming the validator. */
  function V(name: string, call: Outcome<Returned, Error>): (r: Outcome<(), Error>)
    ensures call.Err? ==> r == Err(call.error)
    ensures call.Ok? ==> (r.Err? <==> call.value == ReturnedFalse)
    ensures call.Ok? && r.Err? ==> r.error == TaskValidationError("validator " + name + " failed")
  {
    match call
    case Err(e) => Err(e)
    case Ok(ReturnedFalse) => Err(TaskValidationError("validator " + name + " failed"))
    case Ok(_) => Ok(())
  }

  /** Falsy results other than `False` itself (None, 0, an empty
      collection) pass, as does `True`. */
  lemma OnlyFalseFails(name: string, truthy: bool)
    ensures V(name, Ok(ReturnedNone)) == Ok(())
    ensures V(name, Ok(ReturnedOther(truthy))) == Ok(())
    ensures V(name, Ok(ReturnedTrue)) == Ok(())
    ensures V(name, Ok(ReturnedFalse)).Err?
  {
  }

  /** A size Python treats as unknown: `None` or 0 (`not size`). */
  predicate Unknown(size: Option<int>) {
    size.None? || size.value == 0
  }

  /** The message of `exists`. */
  function ExistsMessage(location: string): string {
    "file does not exist: " + location
  }

  /** `exists`, with the handle's `stat` called as the synchronous call it
      is: any failure, from resolving the location or from the backend,
      becomes the not-exists validation error. */
  function Exists(location: string, config: Option<Config>, forceLocal: bool, be: Backends): (r: Outcome<(), Error>)
    ensures r.Ok? <==> StatAt(location, config, forceLocal, be).Ok?
    ensures r.Err? ==> r.error == TaskValidationError(ExistsMessage(location))
  {
    if StatAt(location, config, forceLocal, be).Err? then Err(TaskValidationError(ExistsMessage(location)))
    else Ok(())
  }

  /** `exists` as written: the handle's `stat` is awaited, and any
      failure, the TypeError of awaiting a plain `StatResult` included,
      becomes the not-exists error. */
  function ExistsAsWritten(location: string, config: Option<Config>, forceLocal: bool, be: Backends): Outcome<(), Error> {
    if AwaitedStat(location, config, forceLocal, be).Err? then Err(TaskValidationError(ExistsMessage(location)))
    else Ok(())
  }

  /** As written, `exists` fails for every gs:// and local location, so
      also for a file that is there, which the corrected version accepts;
      for an HTTP or unrecognised location, whose `stat` is a coroutine,
      it agrees with the corrected version. */
  lemma ExistsAsWrittenRejectsExisting(location: string, config: Option<Config>, forceLocal: bool, be: Backends)
    ensures var h := NewHandle(location, config, forceLocal);
      h.Ok? && !Awaitable(h.value.storage) ==>
        ExistsAsWritten(location, config, forceLocal, be) == Err(TaskValidationError(ExistsMessage(location)))
    ensures var h := NewHandle(location, config, forceLocal);
      h.Ok? && Awaitable(h.value.storage) ==>
        ExistsAsWritten(location, config, forceLocal, be) == Exists(location, config, forceLocal, be)
    ensures StatAt(location, config, forceLocal, be).Ok? ==> Exists(location, config, forceLocal, be) == Ok(())
  {
  }

  /** The catch-all of `size`: a validation error passes unchanged, any
      other error becomes the could-not-compare validation error. */
  function Wrapped(e: Error, one: string, two: string): (w: Error)
    ensures w.TaskValidationError?
    ensures e.TaskValidationError? ==> w == e
  {
    if e.TaskValidationError? then e
    else TaskValidationError("could not compare file sizes: " + one + " and " + two)
  }

  /** The mismatch message of `size`. */
  function MismatchMessage(one: string, a: int, two: string, b: int): string {
    "file size mismatch: " + one + " (" + IntToString(a) + ") != " + two + " (" + IntToString(b) + ")"
  }

  /** `size`, with `stat` called as the synchronous call it is: the first
      location is resolved without `forceLocal`, the second with it; an
      unknown first size returns before the second file is looked at, an
      unknown second size returns too, and two known sizes must agree. */
  function Size(one: string, two: string, config: Option<Config>, forceLocal: bool, be: Backends): (r: Outcome<(), Error>)
    ensures var s1 := StatAt(one, config, false, be);
      var s2 := StatAt(two, config, forceLocal, be);
      r.Ok? <==> s1.Ok? && (Unknown(s1.value.size) ||
                            (s2.Ok? && (Unknown(s2.value.size) || s1.value.size == s2.value.size)))
    ensures r.Err? ==> r.error.TaskValidationError?
  {
    var s1 := StatAt(one, config, false, be);
    if s1.Err? then Err(Wrapped(s1.error, one, two))
    else if Unknown(s1.value.size) then Ok(())
    else
      var s2 := StatAt(two, config, forceLocal, be);
      if s2.Err? then Err(Wrapped(s2.error, one, two))
      else if Unknown(s2.value.size) then Ok(())
      else if s1.value.size != s2.value.size then
        Err(TaskValidationError(MismatchMessage(one, s1.value.size.value, two, s2.value.size.value)))
      else Ok(())
  }

  /** With an unknown first size the second location plays no part: any
      backend that agrees on the first stat gives the same verdict, even
      one whose stat of the second location fails. */
  lemma SizeSkipsSecondWhenFirstUnknown(one: string, two: string, two': string, config: Option<Config>, forceLocal: bool,
                                        be: Backends)
    requires StatAt(one, config, false, be).Ok? && Unknown(StatAt(one, config, false, be).value.size)
    ensures Size(one, two, config, forceLocal, be) == Ok(())
    ensures Size(one, two', config, !forceLocal, be) == Ok(())
  {
  }

  /** Two known, different sizes fail with the mismatch message naming
      both files and sizes. */
  lemma SizeMismatchReported(one: string, two: string, config: Option<Config>, forceLocal: bool, be: Backends)
    requires StatAt(one, config, false, be).Ok? && StatAt(two, config, forceLocal, be).Ok?
    requires !Unknown(StatAt(one, config, false, be).value.size) && !Unknown(StatAt(two, config, forceLocal, be).value.size)
    requires StatAt(one, config, false, be).value.size != StatAt(two, config, forceLocal, be).value.size
    ensures Size(one, two, config, forceLocal, be) ==
      Err(TaskValidationError(MismatchMessage(one, StatAt(one, config, false, be).value.size.value,
                                              two, StatAt(two, config, forceLocal, be).value.size.value)))
  {
  }

  /** `size` as written: each handle's `stat` is awaited, so a gs:// or
      local location fails with TypeError where its stat succeeds, and
      the catch-all turns that into the could-not-compare error. */
  function SizeAsWritten(one: string, two: string, config: Option<Config>, forceLocal: bool, be: Backends): Outcome<(), Error> {
    var s1 := AwaitedStat(one, config, false, be);
    if s1.Err? then Err(Wrapped(s1.error, one, two))
    else if Unknown(s1.value.size) then Ok(())
    else
      var s2 := AwaitedStat(two, config, forceLocal, be);
      if s2.Err? then Err(Wrapped(s2.error, one, two))
      else if Unknown(s2.value.size) then Ok(())
      else if s1.value.size != s2.value.size then
        Err(TaskValidationError(MismatchMessage(one, s1.value.size.value, two, s2.value.size.value)))
      else Ok(())
  }

  /** As written, `size` fails for a first location on gs:// or the local
      filesystem even when both files have the same known size, which the
      corrected version accepts. */
  lemma SizeAsWrittenRejectsEqualSizes(one: string, two: string, config: Option<Config>, forceLocal: bool, be: Backends)
    requires NewHandle(one, config, false).Ok? && !Awaitable(NewHandle(one, config, false).value.storage)
    requires StatAt(one, config, false, be).Ok? && StatAt(two, config, forceLocal, be).Ok?
    requires StatAt(one, config, false, be).value.size == StatAt(two, config, forceLocal, be).value.size
    ensures SizeAsWritten(one, two, config, forceLocal, be) ==
      Err(TaskValidationError("could not compare file sizes: " + one + " and " + two))
    ensures Size(one, two, config, forceLocal, be) == Ok(())
  {
  }

  /** When both locations are HTTP or unrecognised, whose `stat` is a
      coroutine, `size` as written agrees with the corrected version. */
  lemma SizeAsWrittenAgreesWhenAwaitable(one: string, two: string, config: Option<Config>, forceLocal: bool, be: Backends)
    requires NewHandle(one, config, false).Ok? && Awaitable(NewHandle(one, config, false).value.storage)
    requires NewHandle(two, config, forceLocal).Ok? && Awaitable(NewHandle(two, config, forceLocal).value.storage)
    ensures SizeAsWritten(one, two, config, forceLocal, be) == Size(one, two, config, forceLocal, be)
  {
  }
}
