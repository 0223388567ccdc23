/** Optional values, results with an error and the smaller of two naturals, shared by the other modules. */
module Outcomes {

  datatype Option<+T> = None | Some(value: T)

  datatype Result<+T, +E> = Success(value: T) | Failure(error: E)

  function Min(x: nat, y: nat): nat {
    if x <= y then x else y
  }
}
