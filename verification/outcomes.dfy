/** Failure kinds of the reconstruction engine and of the share loader, and the
    failure-compatible result type that replaces the source's exceptions. */
module Outcomes {

  /** What the share loader objects to. Each case carries the x, the base or
      the have/need counts its message reports, and the threshold case keeps
      the rejected k. The text of an undecodable value is not kept, because
      values arrive already decoded. */
  datatype InputProblem =
    | NonPositiveThreshold(k: int)
    | BaseOutOfRange(x: int, base: int)
    | UndecodableValue(x: int, base: int)
    | DuplicateX(x: int)
    | TooFewPoints(have: int, need: int)

  /** The distinct failure kinds a caller can branch on. */
  datatype Error =
    | InsufficientShares
    | DuplicateAbscissa
    | NotAnInteger
    | DivisionByZero
    | InvalidInput(problem: InputProblem)

  /** Either a value or the failure that stopped the computation; usable with `:-`. */
  datatype Result<+T> = Ok(value: T) | Err(error: Error) {

    predicate IsFailure() {
      Err?
    }

    function PropagateFailure<U>(): Result<U>
      requires Err?
    {
      Err(error)
    }

    function Extract(): T
      requires Ok?
    {
      value
    }
  }

  datatype Option<+T> = None | Some(value: T)
}
