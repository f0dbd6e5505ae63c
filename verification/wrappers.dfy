/** Small failure-carrying datatypes shared by the rest of the model. */
module Wrappers {

  /** An optional value. In this model `None` stands for Python's `None`,
      which is both the value of a never-written leaf and a value a caller
      may store. */
  datatype Option<+T> = None | Some(value: T) {

    /** The value if there is one, otherwise `default`. */
    function GetOr(default: T): T
    {
      match this
      case Some(v) => v
      case None => default
    }
  }

  /** Either a result or the error that the operation raised. */
  datatype Result<+R, +E> = Success(value: R) | Failure(error: E)

  /** The only exception the modelled code raises on inputs it accepts:
      Python's `IndexError`, from indexing a list past its end. */
  datatype Error = IndexError
}
