/** Failure-compatible results for the operations that raise in the tree
    engine. Each `RuntimeError` the tree code raises becomes one `Error`
    constructor, so a caller sees the failure as a value. */
module Outcomes {

  /** An optional value, for the source's `Optional` bounds and results. */
  datatype Option<+T> = None | Some(value: T)

  /** The three ways a tree operation can fail. */
  datatype Error =
    | DuplicateKey   // insert of a value the tree already holds
    | LastNode       // delete of the only node of a one-node tree
    | EmptiedTree    // delete whose rebalancing left no node at all

  datatype Result<+T> = Ok(value: T) | Err(error: Error) {

    predicate IsFailure() {
      Err?
    }

    function PropagateFailure<U>(): Result<U>
      requires Err?
    {
      Err(error)
    }

    function Extract(): T
      requires Ok?
    {
      value
    }
  }
}
