/**
 * The failures of the attribute pipeline. Ruby raises an `ArgumentError`
 * in every case; each variant keeps what that error's message names.
 */
module Errors {
  import opened Hashes

  datatype ArgumentError =
    /** "Attribute 'name' is required" */
    | MissedAttribute(name: Key)
    /** "Attribute name is invalid: value" */
    | InvalidAttribute(name: Key, value: Value)
    /** "Undefined attributes: a, b, ..." */
    | UndefinedAttributes(names: seq<Key>)

  /** A value, or the error raised instead of returning one. */
  datatype Result<+T> = Ok(value: T) | Fail(error: ArgumentError)
}
