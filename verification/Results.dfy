// Outcomes of operations that the program ends with an exception.
module Results {

  datatype Result<+T> = Success(value: T) | Failure(error: string)

  datatype Option<+T> = None | Some(value: T)
}
