/** How an operation ends: normally with a value, or by throwing. */
module Outcomes {
  datatype Error =
    | ZeroBlocks
    | NotFullExtent
    | NotSubExtent
    | ExtentOverlap
    | ExtentOutOfBounds
    | NoSuchExtent
    | BadRequest
    | BlockNumbersExhausted
    | NotEnoughRoom
    | Inconsistent
    | NoSuchDescriptor
    | DuplicatedId

  datatype Outcome<+T> = Ok(value: T) | Throws(error: Error)
}
