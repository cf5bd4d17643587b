/** Success or failure of an operation, with the error taxonomy of the toolkit:
    bad parameters, failed system calls, and failed allocations. */
module Status {

  datatype Error =
    | ParameterError(what: string)
    | IOError(what: string)
    | AllocationError(what: string)

  datatype Result<+R> = Ok(value: R) | Err(error: Error)

  /** The outcome of a query that may find nothing, such as `stat`. */
  datatype Option<+V> = None | Some(value: V)
}
