/** The failures a code point mapping reports, one per `throw` of the source. */
module Outcomes {

  datatype Error =
    | UnpairedSurrogate          // "unpaired surrogate": a lone surrogate unit in inserted text
    | OffsetInMiddleOfSurrogate  // "offset in middle of surrogate": a unit offset inside a 2-unit code point
    | OffsetBeyondEnd            // "offset beyond end of string": a unit offset past the last unit
    | CpOffOutsideString         // "cpOff outside of string": a code point offset past the last code point

  /** The value an operation returns, or the error it throws. */
  datatype Result<T> = Ok(value: T) | Err(error: Error)
}
