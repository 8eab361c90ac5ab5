/** The exceptions the modelled code raises or catches. The classes of
    otter.util.errors are named after the source; Python built-ins
    (ValueError, TimeoutError, ...) get their own constructors. */
module Errors {

  datatype Error =
    | NotFoundError(thing: string)
    | PreconditionFailedError
    | StorageError
    | TimeoutError
    | ReadTimeout
    | ValueError
    | NotImplementedError
    | FileNotFoundError
    | UnboundLocalError
    | TypeError
    | UnicodeDecodeError
    | IsADirectoryError
    | ManifestError
    | TaskValidationError(message: string)
    | TaskRunError(reason: string)
    | TaskBuildError(name: string)
    | TaskDuplicateError(name: string)
    | StepFailedError(message: string)
    | SystemExit(code: int)
    | OSError(errno: int)
    | OtherError(message: string)

  /** The otter errors caught by an `except StorageError` clause: the
      storage error itself and its not-found and precondition variants. */
  predicate IsStorageError(e: Error) {
    e.StorageError? || e.NotFoundError? || e.PreconditionFailedError?
  }

  /** Error numbers used with SystemExit. */
  const EIO := 5
  const EINVAL := 22
  const EISDIR := 21
}
