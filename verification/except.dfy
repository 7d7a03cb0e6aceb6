/** The failure kinds the tensor code throws, and a Result that carries either a
    value or the kind of exception the C++ code raises on that path. */
module Except {

  /** The standard exception classes the tensor code throws:
      std::invalid_argument, std::out_of_range and std::runtime_error. */
  datatype Exception = InvalidArgument | OutOfRange | RuntimeError

  /** Either the value an operation returns or the exception it throws. */
  datatype Result<+R> = Ok(value: R) | Err(error: Exception) {

    predicate IsFailure() {
      Err?
    }

    function PropagateFailure<U>(): Result<U>
      requires Err?
    {
      Err(error)
    }

    function Extract(): R
      requires Ok?
    {
      value
    }
  }
}
