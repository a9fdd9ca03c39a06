/** Failure-carrying datatypes and the term id type shared by the widget's components. */
module Wrappers {

  /** A taxonomy term id (`tid`). */
  type Tid = int

  /** A value that may be absent; PHP's NULL for an unset array slot. */
  datatype Option<+T> = None | Some(value: T)

  /** The outcome of an operation that may throw: the value, or the reason it failed. */
  datatype Result<+R, +E> = Success(value: R) | Failure(error: E)

  /** The last element of a non-empty sequence (PHP's `array_pop` result, `$a[count($a) - 1]`). */
  function Last<T>(s: seq<T>): T
    requires |s| > 0
  {
    s[|s| - 1]
  }

  /** No element occurs twice: the keys of a PHP array. */
  predicate Distinct<T(==)>(s: seq<T>)
  {
    forall i, j | 0 <= i < j < |s| :: s[i] != s[j]
  }
}
