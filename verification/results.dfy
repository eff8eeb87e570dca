/** Failure-carrying wrappers shared by the whole model: `Option` stands for a
    nullable reference (`Student?`) and `Result` for an operation of the
    persistence layer that can throw. */
module Results {

  datatype Option<+T> = None | Some(value: T)

  datatype Result<+T, +E> = Ok(value: T) | Err(error: E)
}
