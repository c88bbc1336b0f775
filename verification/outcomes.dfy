/**
 * Failure-compatible wrappers shared by every module of the model.
 *
 * The Python backend signals failure by raising exceptions. The model makes
 * every such exception an explicit value: `Error` names the exception class
 * that the source raises (or lets escape from the SDK), and `Result<T>` is
 * either a value or one of those errors.
 */
module Outcomes {

  datatype Option<+T> = None | Some(value: T)

  /** Error codes the object store answers with (the SDK's `S3Error.code`). */
  datatype S3Code =
    | NoSuchBucket
    | NoSuchKey
    | BucketAlreadyOwnedByYou
    | AccessDenied

  /** The exception kinds the backend raises or lets propagate. */
  datatype Error =
    | ConfigurationError
    | PrivatePublicMixedError(buckets: set<string>)
    | KeyError(key: string)
    | AttributeError
    | S3Error(code: S3Code)
    | MaxRetryError
    | ConnectionError
    | NotImplementedError
    | ValueError

  /** A value, or the exception that was raised instead. */
  datatype Result<+T> = Ok(value: T) | Err(error: Error) {

    predicate IsFailure() {
      Err?
    }

    function PropagateFailure<U>(): Result<U>
      requires Err?
    {
      Err(error)
    }

    function Extract(): T
      requires Ok?
    {
      value
    }
  }

  /** A check that either passes or raises. */
  datatype Outcome = Pass | Fail(error: Error)
}
