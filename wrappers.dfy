/** Small value wrappers shared by every module of the model. */
module Wrappers {

  /** A value that may be absent (a nullable column, an optional request field). */
  datatype Option<+T> = None | Some(value: T)

  /** The outcome of a procedure that either returns a value or raises an error. */
  datatype Result<+T, +E> = Ok(value: T) | Err(error: E)

  /** One key of an ORM `set` clause: a key whose value is `undefined` is skipped by the ORM
      (`Keep`), any other value is written (`Put`). */
  datatype Patch<+T> = Keep | Put(value: T)

  function PatchOr<T>(p: Patch<T>, current: T): T
  {
    match p
    case Keep => current
    case Put(v) => v
  }
}
