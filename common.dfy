/** Small value types shared by every component: optional values, results
    carrying an error instead of an exception, and the error kinds the
    components throw. */
module Common {

  datatype Option<+T> = None | Some(value: T)

  /** A thrown exception becomes a `Failure`; a normal return a `Success`. */
  datatype Result<+T> = Success(value: T) | Failure(error: Error)

  /** The outcome of an operation that returns nothing (`void`) or throws. */
  datatype Outcome = Pass | Fail(error: Error)

  /** The exception kinds raised by the modelled code. `Thrown` stands for a
      plain `Error` or a thrown string literal. */
  datatype Error =
    | StorageIsClosedError
    | ValidationError(message: string)
    | EarthstarError(message: string)
    | Thrown(message: string)

  function Max(a: int, b: int): (r: int)
    ensures r >= a && r >= b && (r == a || r == b)
  {
    if a >= b then a else b
  }
}
