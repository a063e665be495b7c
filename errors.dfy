/** The error kinds that the two containers raise as exceptions, and the
    result types that carry them.  Only the kind of each error is modelled,
    not its message text. */
module Errors {

  datatype Error =
    | EmptyContainer          // an operation that needs at least one element met an empty list
    | InvalidNode             // a null node handed to a node-level helper
    | InvalidIterator         // an iterator built from a null node
    | NodesNotSuccessive      // SwapSuccessiveNodes on nodes that are not neighbours
    | SameNodes               // SwapNonSuccessiveNodes on one node twice
    | ZeroSize                // an array constructed with size zero
    | InvalidSource           // an array constructed from a null buffer
    | InvalidState            // an array whose buffer was moved away
    | OutOfRange(size: nat, index: nat)  // an array index at or past the size

  /** What an operation that throws or produces a value returns. */
  datatype Result<+R> = Ok(value: R) | Err(error: Error)

  /** What an operation that throws or returns nothing returns. */
  datatype Outcome = Pass | Fail(error: Error)
}
