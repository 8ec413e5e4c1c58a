/** Failure-carrying values shared by the handlers and the pages. */
module Common {

  /** A value that may be absent (JavaScript `null` or `undefined`). */
  datatype Option<T> = None | Some(value: T)

  /** The outcome of a call that may throw: a value, or the thrown error's message. */
  datatype Result<T> = Ok(value: T) | Err(message: string)

  /** `a` can be obtained from `b` by deleting elements, the rest keeping their order. */
  predicate IsSubsequence<T(==)>(a: seq<T>, b: seq<T>)
    decreases |b|
  {
    a == [] || (b != [] && ((a[0] == b[0] && IsSubsequence(a[1..], b[1..])) || IsSubsequence(a, b[1..])))
  }
}
