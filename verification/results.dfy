/** Failure-carrying values shared by every module of the model.
    JavaScript's `undefined` becomes `None`; a thrown `Error` becomes `Err`
    with the exact message text the code throws. */
module Results {

  datatype Option<+T> = None | Some(value: T)

  datatype Result<+T> = Ok(value: T) | Err(message: string)
}
