/** Failure-carrying result types shared by the modules of this model. A fatal error of the
    original program (a thrown FatalError) becomes a `Fatal` result that the caller propagates. */
module Common {

  datatype Option<T> = None | Some(value: T)

  datatype Result<T, E> = Ok(value: T) | Fatal(error: E)

  datatype Outcome<E> = Pass | Fail(error: E)
}
