/** Failure-carrying results shared by the modules of this model: an absent
    value (Python's `None`) and the outcome of an operation that may raise. */
module Outcomes {

  datatype Option<T> = None | Some(value: T)

  datatype Result<T, E> = Ok(value: T) | Err(error: E)
}
