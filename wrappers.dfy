/** Option and Result, used for Python's None returns and for raised exceptions, the byte type, and one fact about sequences. */
module Wrappers {

  datatype Option<+T> = None | Some(value: T)

  /** A Python exception that escapes the modelled function, by its class name. */
  datatype Result<+T> = Ok(value: T) | Raised(exception: string)

  newtype byte = x: int | 0 <= x < 256

  /** Appending is associative; stated once for the loops that build a list piece by piece. */
  lemma ConcatAssoc<T>(a: seq<T>, b: seq<T>, c: seq<T>)
    ensures (a + b) + c == a + (b + c)
  {
  }
}
