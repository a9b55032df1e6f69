/** Failure-aware wrappers used across the model. */
module Wrappers {

  /** A value that may be absent: Python's `None` or a missing dictionary entry. */
  datatype Option<+T> = None | Some(value: T)

  /** The outcome of an operation that raises on some inputs. */
  datatype Result<+T, +E> = Success(value: T) | Failure(error: E)

  /** Python's `d.get(key, default)`: a present key wins, whatever its value;
      only an absent key gives the default. */
  function GetOr<K, V>(d: map<K, V>, key: K, default: V): (v: V)
    ensures key in d ==> v == d[key]
    ensures key !in d ==> v == default
  {
    if key in d then d[key] else default
  }
}
