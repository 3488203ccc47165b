/** Nullable values and query outcomes shared by every table of the model. */
module Wrappers {

  /** A nullable column or a lookup that may find nothing (C# `T?`, SQL NULL). */
  datatype Option<+T> = None | Some(value: T)

  /** The outcome of a statement that the database may reject. */
  datatype Result<+T, +E> = Success(value: T) | Failure(error: E)
}
