/**
  Failure-compatible wrappers and the error taxonomy of the split tree.

  Every exception the JavaScript code throws synchronously becomes a
  `Failure` carrying one of the `Error` values below; an absent (`null` or
  `undefined`) reference becomes `None`.
 */
module Outcomes {

  /** An optional value: a nullable reference or an undefined property. */
  datatype Option<+T> = None | Some(value: T) {

    /** The value, or `default` when absent. */
    function GetOr(default: T): T {
      match this
      case Some(v) => v
      case None => default
    }
  }

  /** The errors the geometry and the tree raise. */
  datatype Error =
    | DimensionMismatch      // a point or box of another dimension count
    | OutOfBoundInsert       // the node's box does not contain the entity's box
    | EntityNotFound         // the node does not list the entity
    | BranchFunctionOnLeaf   // a child-array operation on a node without one

  /** Either a value or the error a call threw. */
  datatype Result<+T> = Success(value: T) | Failure(error: Error) {

    predicate IsFailure() {
      Failure?
    }

    function PropagateFailure<U>(): Result<U>
      requires Failure?
    {
      Failure(error)
    }

    function Extract(): T
      requires Success?
    {
      value
    }
  }
}
