/** Failure-compatible result type shared by the model.
    The source signals failure by throwing (a failing `assert`, a TypeError when a
    missing property is read, an explicit `throw`); the model returns `Err` instead. */
module Wrappers {

  /** Why an operation of the source fails. */
  datatype Fault =
    | AssertionFailed     // an `assert(...)` of the source is false
    | MissingProperty     // a property or method the object does not have is used
    | InverseMissing      // `mod_inv` throws 'Inverse doesn't exist'
    | InvalidProof        // `Accumulator.remove` throws 'Invalid proof'
    | NotANumber          // `BigInt(...)` of an object throws

  datatype Result<+T> = Ok(value: T) | Err(error: Fault) {
    predicate IsFailure() { Err? }

    function PropagateFailure<U>(): Result<U>
      requires Err?
    {
      Err(error)
    }

    function Extract(): T
      requires Ok?
    {
      value
    }
  }
}
