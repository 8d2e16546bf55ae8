/** Failure-carrying results. Every error of the modelled code is a DukeException
    that carries one human-readable message, so errors here are messages. */
module Wrappers {

  /** The value of an operation that either returns normally or throws a DukeException. */
  datatype Result<+T> = Ok(value: T) | Err(message: string)

  /** The outcome of an operation that returns nothing or throws a DukeException. */
  datatype Outcome = Pass | Fail(message: string)

  datatype Option<+T> = None | Some(value: T)
}
