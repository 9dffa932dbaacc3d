/**
  The ways the interpreter stops. In the C code every one of these aborts
  the process; the model returns them as the error half of a `Result`, at
  the same points and on the same conditions.
*/
module Errors {

  datatype Error =
    /** `error(msg)` or a failed `ASSERT_OR_ERROR(cond, msg)`. */
    | Fatal(message: string)
    /** A failed debug `assert(cond)`. */
    | AssertionFailed(condition: string)
    /** A walk along a cyclic cdr chain, on which the C loop never ends. */
    | Diverges
    /** The evaluation step budget of the model ran out. */
    | OutOfFuel
    /** A write past the end of the fixed operand buffer, undefined behaviour in C. */
    | BufferOverflow
}
