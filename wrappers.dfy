/** Failure-compatible results standing for the exceptions the engine throws. */
module Wrappers {

  /** The failure kinds of the engine: each names the condition under which the
      source throws (or, for `Unsolvable`, returns its sentinel). */
  datatype Error =
    | DivisionByZero        // dividing by the zero polynomial
    | Unsolvable            // a*x = b (mod Zp) has no solution
    | NoInverse             // a*x = b (mod m) has no solution for polynomials
    | NotFound              // discrete-log lookup miss
    | Exhausted             // a deterministic generator ran out of candidates
    | DegreeTooLarge        // generator degree not below the modulus degree
    | DegreeTooSmall        // field modulus of too small degree
    | Reducible             // field modulus failed the irreducibility test
    | NotPrimitive          // field generator failed the primitivity test
    | NoReturnToOne         // the powers of the generator did not come back to One within the bound
    | Diverges              // the source loops for ever; each operation returning it proves so
    | NotImplemented        // placeholder operation

  datatype Result<+T> = Ok(value: T) | Err(error: Error) {
    predicate IsFailure() { Err? }

    function PropagateFailure<U>(): Result<U>
      requires Err?
    {
      Err(error)
    }

    function Extract(): T
      requires Ok?
    {
      value
    }
  }
}
