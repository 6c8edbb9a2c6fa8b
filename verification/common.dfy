/** Option and Result: the shapes Java's `Optional`, nullable references and
    checked exceptions take in this model. */
module Common {

  /** `None` stands for Java's `null` or an empty `Optional`. */
  datatype Option<+T> = None | Some(value: T)

  /** A call that either returns `value` or throws `error`. */
  datatype Result<+T, +E> = Ok(value: T) | Err(error: E)
}
