/** Small wrapper datatypes shared by the modules of the model. */
module Results {

  /** An optional value: a part-of-speech lookup that may find no tag. */
  datatype Option<T> = None | Some(value: T)

  /**
   * The outcome of a computation that divides by a total occurrence count.
   * Python raises ZeroDivisionError when that total is zero; the model
   * returns `ZeroDivision` instead.
   */
  datatype Result<T> = Ok(value: T) | ZeroDivision
}
