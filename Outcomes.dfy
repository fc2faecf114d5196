/** The values that stand in for Python's `None` and for the AnLinqException an operator raises. */
module Outcomes {

  /** `None` is Python's None; `Some(v)` is an ordinary value. */
  datatype Option<+T> = None | Some(value: T)

  /** An operator either returns a value or raises. */
  datatype Result<+R, +E> = Success(value: R) | Failure(error: E)

  /** The kinds of AnLinqException raised outside `to_dictionary`. */
  datatype Error =
    | IterableIsNone                          // the constructor was given None
    | IndexOutOfRange(index: int, count: nat) // `[index]` ran off the end after `count` items
    | NoMatchingItems                         // `first` / `last` found nothing that qualifies

  /** The AnLinqException `to_dictionary(unique=True)` raises, naming the key seen twice. */
  datatype KeyError<K> = DuplicateKey(key: K)
}
