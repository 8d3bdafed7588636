/** Optional values and fallible results, used wherever the source returns `undefined` or throws. */
module Wrappers {

  /** `None` stands for JavaScript's `undefined`. */
  datatype Option<+T> = None | Some(value: T)

  /** `Fault` stands for an exception the source lets escape (a thrown Error or a TypeError). */
  datatype Result<+T> = Ok(value: T) | Fault(message: string)
}
