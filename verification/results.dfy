/** Error signalling shared by the whole model: every C++ `throw` of the core
    becomes a `Failure` carrying the exception kind and its message. */
module Results {

  /** The exception classes the core throws. */
  datatype Error =
    | InvalidValue(message: string)   // librealsense::invalid_value_exception
    | Runtime(message: string)        // std::runtime_error

  datatype Result<+T> = Success(value: T) | Failure(error: Error) {
    predicate IsFailure() {
      Failure?
    }

    function PropagateFailure<U>(): Result<U>
      requires Failure?
    {
      Failure(error)
    }

    function Extract(): T
      requires Success?
    {
      value
    }
  }

  datatype Option<+T> = None | Some(value: T)
}
