/** Failure-compatible wrappers and the Python runtime errors the router code can raise. */
module Wrappers {

  datatype Option<+T> = None | Some(value: T)

  /** The Python exceptions that escape the modelled functions. */
  datatype Error =
    | KeyError(key: int)          // a missing integer key of a dict
    | ColumnError(name: string)   // a missing DataFrame column
    | IndexError                  // a list index out of range
    | AttributeError              // `.group` called on the None of a failed regex search
    | MissingField(name: string)  // a missing string key of a decoded JSON object

  datatype Result<+T> = Success(value: T) | Failure(error: Error) {
    predicate IsFailure() { Failure? }
    function PropagateFailure<U>(): Result<U>
      requires Failure?
    {
      Failure(error)
    }
    function Extract(): T
      requires Success?
    {
      value
    }
  }

  /** A pydantic field typed `T | list[T]`: OSM merges parallel ways into one edge and then lists their values. */
  datatype OneOrMany<T> = One(item: T) | Many(items: seq<T>)
}
