/** Failures reported while framing and while looking items up. */
module Errors {
  /** Finite error of recursive framing. `additional` of `NeedMore` is a lower bound. */
  datatype RecursiveError =
    | NeedMore(offset: nat, additional: nat)
    | Layout
    | InvalidFrame(offset: nat, consumed: nat, available: nat)
    | Leftover(offset: nat, trailing: nat)
    | DepthExceeded(limit: nat, offset: nat)
    | Child(offset: nat)
    | UnknownSelector(offset: nat)

  /** Failure while traversing a counted array whose items fail with `E`. */
  datatype ArrayError<+E> =
    | ShortArray(offset: nat, additional: nat)
    | Item(index: nat, source: E)
    | InvalidExtent(index: nat, consumed: nat, available: nat)
    | NonProgress(index: nat, offset: nat)
    | Trailing(offset: nat, trailing: nat)

  /** What becomes of a call: the process panics, or the call returns. */
  datatype Completion<+T> = Panicked | Returned(value: T)
}
