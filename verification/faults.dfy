/** Error outcomes of the kernel's operations.

    The C++ code throws `std::runtime_error` on a dimension mismatch; a zero
    divisor or the square root of a negative number makes the underlying
    multiple-precision library abort; reading past the end of a vector is
    undefined behaviour. The model turns each of these into an explicit
    `Err` value instead of a precondition, so the error paths can be stated. */
module Faults {

  datatype Fault =
    | DimensionMismatch   // a thrown dimension/size mismatch
    | DivisionByZero      // a zero divisor reached the multiple-precision division
    | NegativeRoot        // the square root of a negative value was requested
    | OutOfBounds         // an index one past the end of a vector was read

  datatype Result<+T> = Ok(value: T) | Err(fault: Fault)
}
