/** Optional values, results and bytes shared by the other modules. */
module Wrappers {

  /** An octet, as held by a Node `Buffer`. */
  type Byte = b: int | 0 <= b < 256

  /** `None` stands for JavaScript's `null` (or a missing value). */
  datatype Option<+T> = None | Some(value: T)

  /** `Err` stands for a rejected promise (a thrown value). */
  datatype Result<+T, +E> = Ok(value: T) | Err(error: E)
}
