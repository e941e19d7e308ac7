/**
 * The failure kinds of the tweet phraseologist: its own exception classes
 * and the built-in exceptions its core raises (IndexError for a CSV row with
 * too few fields, StopIteration for `next` on an exhausted reader,
 * ValueError for a bad integer or an unknown party or a pool of fewer than
 * one process).
 */
module TpExceptions {

  datatype Error =
    | DatabaseAlreadyExists
    | DatabaseNotFound
    | DatasetNotFound
    | DatasetInstall
    | IndexError
    | StopIteration
    | ValueError

  datatype Result<T> = Ok(value: T) | Err(error: Error)

  datatype Option<T> = None | Some(value: T)
}
