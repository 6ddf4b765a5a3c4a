/** Optional values and refusals shared by the model. */
module Wrappers {

  /** A value that may be missing (a JavaScript `null` / `undefined`). */
  datatype Option<+T> = None | Some(value: T)

  /** Either a value or the user-facing message that explains the refusal. */
  datatype Result<+T> = Ok(value: T) | Err(message: string)
}
