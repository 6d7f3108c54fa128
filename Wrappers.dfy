/** Wrappers shared by the whole model. */
module Wrappers {

  /** A nullable reference or key: `None` is C#'s `null`. */
  datatype Option<+T> = None | Some(value: T)

  /** The result of an operation: `Ok` carries what a lookup loads or the id a
      create assigns (`()` for an update or a delete, which return nothing).
      `NotFound` stands for the `InvalidOperationException` that `SingleAsync`
      throws when no row has the id. */
  datatype Result<+T> = Ok(value: T) | NotFound
}
