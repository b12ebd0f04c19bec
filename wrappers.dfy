/** Optional values, used where the source dereferences something that may be absent. */
module Wrappers {

  datatype Option<T> = None | Some(value: T)

  /** A value or the reason it could not be produced (a thrown std::out_of_range, say). */
  datatype Result<T> = Ok(value: T) | Err(reason: string)
}
